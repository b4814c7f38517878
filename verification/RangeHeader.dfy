/** The single byte range a download accepts (section 14.1.2 of RFC 9110). */
module RangeHeader {
  import opened Bytes

  // ---------------------------------------------------------------- the string functions used

  /** unicode.IsSpace. */
  predicate IsSpace(c: char) {
    || '\U{9}' <= c <= '\U{d}' || c == ' ' || c == '\U{85}' || c == '\U{a0}' || c == '\U{1680}'
    || '\U{2000}' <= c <= '\U{200a}' || c == '\U{2028}' || c == '\U{2029}' || c == '\U{202f}'
    || c == '\U{205f}' || c == '\U{3000}'
  }

  function TrimLeft(s: string): string {
    if s != "" && IsSpace(s[0]) then TrimLeft(s[1..]) else s
  }

  function TrimRight(s: string): string {
    if s != "" && IsSpace(s[|s| - 1]) then TrimRight(s[..|s| - 1]) else s
  }

  function TrimSpace(s: string): string {
    TrimRight(TrimLeft(s))
  }

  predicate IsDigit(c: char) {
    '0' <= c <= '9'
  }

  predicate AllDigits(s: string) {
    forall i | 0 <= i < |s| :: IsDigit(s[i])
  }

  function Value(s: string): nat
    requires AllDigits(s)
  {
    if s == "" then 0 else Value(s[..|s| - 1]) * 10 + (s[|s| - 1] as int - '0' as int)
  }

  const Int64Limit: int := 0x8000_0000_0000_0000

  /** strconv.ParseInt(s, 10, 64). */
  function ParseInt(s: string): Option<int> {
    var signed := s != "" && (s[0] == '+' || s[0] == '-');
    var digits := if signed then s[1..] else s;
    if digits == "" || !AllDigits(digits) then None
    else
      var v: int := if signed && s[0] == '-' then 0 - Value(digits) else Value(digits);
      if -Int64Limit <= v < Int64Limit then Some(v) else None
  }

  // ---------------------------------------------------------------- parseRange

  datatype RangeResult = Unsatisfiable | Bytes(start: int, end: int, partial: bool)

  const Unit := "bytes="

  /**
   The inclusive range to send.  Whatever is accepted for a nonempty file lies inside it; without a header
   it is all of the file, and nothing else is sent as a whole.
   */
  function ParseRange(header: string, size: nat): (r: RangeResult)
    ensures r.Bytes? && size > 0 ==> 0 <= r.start <= r.end < size
    ensures r.Bytes? && size == 0 ==> r == Bytes(0, if header == "" then 0 else -1, header != "")
    ensures header == "" ==> r.Bytes? && (size > 0 ==> r.start == 0 && r.end - r.start + 1 == size)
    ensures r.Bytes? ==> (r.partial <==> header != "")
  {
    if header == "" then Bytes(0, if size > 0 then size - 1 else 0, false)
    else
      var trimmed := TrimSpace(header);
      if !(Unit <= trimmed) then Unsatisfiable
      else
        var spec := trimmed[|Unit|..];
        if ',' in spec || '-' !in spec then Unsatisfiable
        else
          var i := FirstDash(spec);
          ParseBounds(TrimSpace(spec[..i]), TrimSpace(spec[i + 1..]), size)
  }

  /** The switch on the two texts around the dash. */
  function ParseBounds(before: string, after: string, size: nat): (r: RangeResult)
    ensures r.Bytes? ==> r.partial
    ensures r.Bytes? && size > 0 ==> 0 <= r.start <= r.end < size
    ensures r.Bytes? && size == 0 ==> r == Bytes(0, -1, true)
  {
    if before == "" then
      match ParseInt(after)
      case None => Unsatisfiable
      case Some(n) => if n <= 0 then Unsatisfiable else Bytes(size - Min(n, size), size - 1, true)
    else
      match ParseInt(before)
      case None => Unsatisfiable
      case Some(start) =>
        if start < 0 || start >= size then Unsatisfiable
        else if after == "" then Bytes(start, size - 1, true)
        else match ParseInt(after)
          case None => Unsatisfiable
          case Some(end) => if end < start then Unsatisfiable else Bytes(start, Min(end, size - 1), true)
  }

  function FirstDash(s: string): (i: nat)
    requires '-' in s
    ensures i < |s| && s[i] == '-' && '-' !in s[..i]
  {
    if s[0] == '-' then 0 else
      var i := 1 + FirstDash(s[1..]);
      assert s[..i] == [s[0]] + s[1..][..i - 1];
      i
  }

  // ---------------------------------------------------------------- what the header means

  /** The usual decimal notation. */
  function Decimal(n: nat): (s: string)
    ensures s != "" && AllDigits(s)
  {
    var digit := '0' + (n % 10) as char;
    if n < 10 then [digit] else Decimal(n / 10) + [digit]
  }

  lemma {:induction false} ValueOfDecimal(n: nat)
    ensures Value(Decimal(n)) == n
  {
    var s := Decimal(n);
    if n >= 10 {
      ValueOfDecimal(n / 10);
      assert s[..|s| - 1] == Decimal(n / 10);
    }
  }

  lemma ParseDecimal(n: nat)
    ensures ParseInt(Decimal(n)) == if n < Int64Limit then Some(n) else None
  {
    ValueOfDecimal(n);
    assert IsDigit(Decimal(n)[0]);
  }

  lemma TrimDecimal(n: nat)
    ensures TrimSpace(Decimal(n)) == Decimal(n)
  {
    var s := Decimal(n);
    assert IsDigit(s[0]) && IsDigit(s[|s| - 1]);
  }

  lemma NoDash(n: nat)
    ensures '-' !in Decimal(n) && ',' !in Decimal(n)
  {
  }

  /** The header splits at its dash into the two texts around it. */
  lemma Splits(before: string, after: string)
    requires '-' !in before && ',' !in before && ',' !in after
    requires after == "" || !IsSpace(after[|after| - 1])
    ensures TrimSpace(Unit + before + "-" + after) == Unit + before + "-" + after
  {
    var header := Unit + before + "-" + after;
    assert header[0] == 'b' && (after != "" ==> header[|header| - 1] == after[|after| - 1]);
  }

  lemma ParseSplit(before: string, after: string, size: nat)
    requires '-' !in before && ',' !in before && ',' !in after
    requires after == "" || !IsSpace(after[|after| - 1])
    ensures ParseRange(Unit + before + "-" + after, size) == ParseBounds(TrimSpace(before), TrimSpace(after), size)
  {
    Splits(before, after);
    CutsAtDash(before, after);
  }

  /** The forms of a single byte range. */
  datatype Spec = FirstLast(first: nat, last: nat) | From(first: nat) | Suffix(length: nat)

  function Text(spec: Spec): string {
    match spec
    case FirstLast(first, last) => Unit + Decimal(first) + "-" + Decimal(last)
    case From(first) => Unit + Decimal(first) + "-" + ""
    case Suffix(length) => Unit + "" + "-" + Decimal(length)
  }

  /**
   What section 14.1.2 of RFC 9110 says the forms mean, for a representation of size bytes; an invalid
   range is refused, as section 14.2 allows.
   */
  function Meaning(spec: Spec, size: nat): RangeResult {
    match spec
    case FirstLast(first, last) =>
      if first <= last && first < size then Bytes(first, Min(last, size - 1), true) else Unsatisfiable
    case From(first) => if first < size then Bytes(first, size - 1, true) else Unsatisfiable
    case Suffix(length) => if length > 0 then Bytes(size - Min(length, size), size - 1, true) else Unsatisfiable
  }

  /** A number that does not fit 63 bits where only a smaller one would be refused for another reason. */
  predicate TooLong(spec: Spec, size: nat) {
    match spec
    case FirstLast(first, last) => first < size && last >= Int64Limit
    case From(_) => false
    case Suffix(length) => length >= Int64Limit
  }

  /** The bounds as the switch sees them. */
  lemma BoundsOfText(spec: Spec, size: nat)
    ensures ParseRange(Text(spec), size)
         == match spec
            case FirstLast(first, last) => ParseBounds(Decimal(first), Decimal(last), size)
            case From(first) => ParseBounds(Decimal(first), "", size)
            case Suffix(length) => ParseBounds("", Decimal(length), size)
  {
    match spec
    case FirstLast(first, last) =>
      NumberText(first);
      NumberText(last);
      ParseSplit(Decimal(first), Decimal(last), size);
    case From(first) =>
      NumberText(first);
      ParseSplit(Decimal(first), "", size);
    case Suffix(length) =>
      NumberText(length);
      ParseSplit("", Decimal(length), size);
  }

  lemma NumberText(n: nat)
    ensures TrimSpace(Decimal(n)) == Decimal(n) && '-' !in Decimal(n) && ',' !in Decimal(n)
    ensures !IsSpace(Decimal(n)[|Decimal(n)| - 1])
  {
    TrimDecimal(n);
    NoDash(n);
    assert IsDigit(Decimal(n)[|Decimal(n)| - 1]);
  }

  /** Every range is read as it is meant, except that numbers of 63 bits and more are refused. */
  lemma RangeRead(spec: Spec, size: nat)
    requires size < Int64Limit
    ensures ParseRange(Text(spec), size) == if TooLong(spec, size) then Unsatisfiable else Meaning(spec, size)
  {
    BoundsOfText(spec, size);
    match spec
    case FirstLast(first, last) => BothRead(first, last, size);
    case From(first) => FirstRead(first, size);
    case Suffix(length) => LengthRead(length, size);
  }

  lemma FirstRead(first: nat, size: nat)
    requires size < Int64Limit
    ensures ParseBounds(Decimal(first), "", size)
         == if first < size then Bytes(first, size - 1, true) else Unsatisfiable
  {
    ParseDecimal(first);
  }

  lemma LengthRead(length: nat, size: nat)
    ensures ParseBounds("", Decimal(length), size)
         == if 0 < length < Int64Limit then Bytes(size - Min(length, size), size - 1, true) else Unsatisfiable
  {
    ParseDecimal(length);
  }

  lemma BothRead(first: nat, last: nat, size: nat)
    requires size < Int64Limit
    ensures ParseBounds(Decimal(first), Decimal(last), size)
         == if first < size && first <= last < Int64Limit then Bytes(first, Min(last, size - 1), true)
            else Unsatisfiable
  {
    ParseDecimal(first);
    ParseDecimal(last);
  }

  /**
   A range means what section 14.1.2 of RFC 9110 says, refusals included, exactly unless its last
   position, for a first one inside the file, or its suffix length does not fit 63 bits.
   */
  lemma RangeMeaning(spec: Spec, size: nat)
    requires size < Int64Limit
    ensures ParseRange(Text(spec), size) == Meaning(spec, size) <==> !TooLong(spec, size)
  {
    RangeRead(spec, size);
  }

  // ---------------------------------------------------------------- blanks

  // The code points with the Unicode property White_Space.
  const WhiteSpace: string := [
    '\U{9}', '\U{a}', '\U{b}', '\U{c}', '\U{d}', '\U{20}', '\U{85}', '\U{a0}', '\U{1680}',
    '\U{2000}', '\U{2001}', '\U{2002}', '\U{2003}', '\U{2004}', '\U{2005}', '\U{2006}', '\U{2007}',
    '\U{2008}', '\U{2009}', '\U{200a}', '\U{2028}', '\U{2029}', '\U{202f}', '\U{205f}', '\U{3000}']

  lemma IsSpaceIff(c: char)
    ensures IsSpace(c) <==> c in WhiteSpace
  {
  }

  predicate AllWhite(s: string) {
    forall i | 0 <= i < |s| :: IsSpace(s[i])
  }

  /** No white space at either end. */
  predicate Trimmed(s: string) {
    s != "" ==> !IsSpace(s[0]) && !IsSpace(s[|s| - 1])
  }

  lemma {:induction false} TrimsLeft(blanks: string, s: string)
    requires AllWhite(blanks) && (s != "" ==> !IsSpace(s[0]))
    ensures TrimLeft(blanks + s) == s
  {
    if blanks == "" {
      assert blanks + s == s;
    } else {
      assert (blanks + s)[1..] == blanks[1..] + s;
      TrimsLeft(blanks[1..], s);
    }
  }

  lemma {:induction false} TrimsRight(s: string, blanks: string)
    requires AllWhite(blanks) && (s != "" ==> !IsSpace(s[|s| - 1]))
    ensures TrimRight(s + blanks) == s
  {
    if blanks == "" {
      assert s + blanks == s;
    } else {
      assert (s + blanks)[..|s + blanks| - 1] == s + blanks[..|blanks| - 1];
      TrimsRight(s, blanks[..|blanks| - 1]);
    }
  }

  /** Trimming takes off exactly the white space at both ends. */
  lemma TrimsBoth(before: string, s: string, after: string)
    requires AllWhite(before) && AllWhite(after) && Trimmed(s)
    ensures TrimSpace(before + s + after) == s
  {
    if s == "" {
      assert before + s + after == (before + after) + "";
      TrimsLeft(before + after, "");
      TrimsRight("", "");
    } else {
      assert before + s + after == before + (s + after);
      TrimsLeft(before, s + after);
      TrimsRight(s, after);
    }
  }

  lemma WhiteJoins(s: string, t: string)
    requires AllWhite(s) && AllWhite(t)
    ensures AllWhite(s + t)
  {
  }

  lemma Regroups(s: string, t: string, u: string)
    ensures s + (t + u) == (s + t) + u
  {
  }

  lemma BlanksJoin(before: string, left: string, s: string, right: string, after: string)
    ensures before + (left + (s + right)) + after == (before + left) + s + (right + after)
  {
    Regroups(before, left, s + right);
    Regroups(before + left, s, right);
    Regroups((before + left) + s, right, after);
  }

  lemma {:induction false} LeftDecomposes(s: string) returns (blanks: string)
    ensures AllWhite(blanks) && s == blanks + TrimLeft(s)
    ensures TrimLeft(s) != "" ==> !IsSpace(TrimLeft(s)[0])
  {
    blanks := "";
    if s != "" && IsSpace(s[0]) {
      var rest := LeftDecomposes(s[1..]);
      WhiteJoins([s[0]], rest);
      blanks := [s[0]] + rest;
      Regroups([s[0]], rest, TrimLeft(s));
      assert s == [s[0]] + s[1..];
    }
  }

  lemma {:induction false} RightDecomposes(s: string) returns (blanks: string)
    ensures AllWhite(blanks) && s == TrimRight(s) + blanks
    ensures TrimRight(s) != "" ==> TrimRight(s)[0] == s[0] && !IsSpace(TrimRight(s)[|TrimRight(s)| - 1])
  {
    blanks := "";
    if s != "" && IsSpace(s[|s| - 1]) {
      var last := [s[|s| - 1]];
      var rest := RightDecomposes(s[..|s| - 1]);
      WhiteJoins(rest, last);
      blanks := rest + last;
      Regroups(TrimRight(s), rest, last);
      assert s == s[..|s| - 1] + last;
    }
  }

  lemma TrimsWith(before: string, header: string, after: string)
    requires AllWhite(before) && AllWhite(after)
    ensures TrimSpace(before + header + after) == TrimSpace(header)
  {
    var t := TrimLeft(header);
    var s := TrimRight(t);
    var left := LeftDecomposes(header);
    var right := RightDecomposes(t);
    WhiteJoins(before, left);
    WhiteJoins(right, after);
    BlanksJoin(before, left, s, right, after);
    TrimsBoth(before + left, s, right + after);
  }

  /** White space around a header changes nothing. */
  lemma BlanksDoNotMatter(before: string, header: string, after: string, size: nat)
    requires AllWhite(before) && AllWhite(after) && header != ""
    ensures ParseRange(before + header + after, size) == ParseRange(header, size)
  {
    TrimsWith(before, header, after);
  }

  // ---------------------------------------------------------------- which headers are accepted

  /** Header is, between blanks, the unit and one range cut at its first dash into two texts. */
  predicate Cuts(header: string, before: string, after: string) {
    TrimSpace(header) == Unit + before + "-" + after && '-' !in before && ',' !in before && ',' !in after
  }

  /** A decimal number with or without a sign, within 64 bits. */
  predicate Numeral(s: string, sign: string, digits: string, v: int) {
    && (sign == "" || sign == "+" || sign == "-") && digits != "" && AllDigits(digits) && s == sign + digits
    && v == (if sign == "-" then 0 - Value(digits) else Value(digits))
    && -9_223_372_036_854_775_808 <= v <= 9_223_372_036_854_775_807
  }

  /** ParseInt reads exactly the numerals. */
  lemma ParseIntIff(s: string, v: int)
    ensures ParseInt(s) == Some(v) <==> exists sign, digits :: Numeral(s, sign, digits, v)
  {
    var signed := s != "" && (s[0] == '+' || s[0] == '-');
    if ParseInt(s) == Some(v) {
      var sign, digits := if signed then s[..1] else "", if signed then s[1..] else s;
      assert s == sign + digits;
      assert Numeral(s, sign, digits, v);
    }
    forall sign, digits | Numeral(s, sign, digits, v) ensures ParseInt(s) == Some(v) {
      if sign == "" {
        assert s == digits && IsDigit(s[0]);
      } else {
        assert s[0] == sign[0] && s[1..] == digits;
      }
    }
  }

  /** The two texts, trimmed, are a suffix length, or a start inside the file and perhaps an end not before it. */
  predicate Acceptable(before: string, after: string, size: nat) {
    var first, last := ParseInt(TrimSpace(before)), ParseInt(TrimSpace(after));
    if TrimSpace(before) == "" then last.Some? && last.value > 0
    else first.Some? && 0 <= first.value < size
         && (TrimSpace(after) == "" || (last.Some? && last.value >= first.value))
  }

  lemma AcceptedIsCut(header: string, size: nat) returns (before: string, after: string)
    requires header != "" && ParseRange(header, size).Bytes?
    ensures Cuts(header, before, after) && Acceptable(before, after, size)
  {
    var trimmed := TrimSpace(header);
    var spec := trimmed[|Unit|..];
    var i := FirstDash(spec);
    before, after := spec[..i], spec[i + 1..];
    DashSplits(trimmed, spec, i);
    BoundsAccepted(before, after, size);
  }

  lemma DashSplits(trimmed: string, spec: string, i: nat)
    requires Unit <= trimmed && spec == trimmed[|Unit|..] && ',' !in spec && i < |spec| && spec[i] == '-'
    ensures trimmed == Unit + spec[..i] + "-" + spec[i + 1..] && ',' !in spec[..i] && ',' !in spec[i + 1..]
  {
    assert trimmed == Unit + spec;
    assert spec == spec[..i] + "-" + spec[i + 1..];
  }

  lemma CutIsRead(header: string, before: string, after: string, size: nat)
    requires header != "" && Cuts(header, before, after)
    ensures ParseRange(header, size) == ParseBounds(TrimSpace(before), TrimSpace(after), size)
  {
    CutsAtDash(before, after);
  }

  /**
   A header is accepted exactly if it is empty or one acceptable range, blanks and plus signs
   allowed; every other unit, case of the unit, and list of ranges is refused.
   */
  lemma AcceptedIff(header: string, size: nat)
    ensures ParseRange(header, size).Bytes?
            <==> header == "" || exists before, after :: Cuts(header, before, after) && Acceptable(before, after, size)
  {
    if header != "" && ParseRange(header, size).Bytes? {
      var before, after := AcceptedIsCut(header, size);
    }
    forall before, after | header != "" && Cuts(header, before, after) && Acceptable(before, after, size)
      ensures ParseRange(header, size).Bytes?
    {
      CutIsRead(header, before, after, size);
      BoundsAccepted(before, after, size);
    }
  }

  lemma BoundsAccepted(before: string, after: string, size: nat)
    ensures ParseBounds(TrimSpace(before), TrimSpace(after), size).Bytes? <==> Acceptable(before, after, size)
  {
  }

  /** The first dash is where the texts were put together. */
  lemma CutsAtDash(before: string, after: string)
    requires '-' !in before && ',' !in before && ',' !in after
    ensures var trimmed := Unit + before + "-" + after;
            && Unit <= trimmed
            && (var spec := trimmed[|Unit|..];
                && ',' !in spec && '-' in spec
                && spec[..FirstDash(spec)] == before && spec[FirstDash(spec) + 1..] == after)
  {
    var spec := (Unit + before + "-" + after)[|Unit|..];
    assert spec == before + "-" + after;
    assert spec[|before|] == '-';
    var i := FirstDash(spec);
    assert forall j | 0 <= j < |before| :: spec[j] == before[j];
    assert i == |before|;
  }
}
