/** `parseInt` over a model of `strtol` in base 0 (section 7.20.1.4 of ISO C99),
    with a 64-bit `long` and a 32-bit `int`. */
module IntParsing {
  import opened CStrings

  const LONG_MIN := -0x8000_0000_0000_0000
  const LONG_MAX := 0x7fff_ffff_ffff_ffff
  const INT_MIN := -0x8000_0000
  const INT_MAX := 0x7fff_ffff

  predicate IsSpace(c: char) {
    c == ' ' || '\t' <= c <= '\r'
  }

  function DigitValue(c: char): (d: nat)
    ensures d <= 36
  {
    if '0' <= c <= '9' then (c - '0') as int
    else if 'a' <= c <= 'z' then (c - 'a') as int + 10
    else if 'A' <= c <= 'Z' then (c - 'A') as int + 10
    else 36
  }

  predicate AllDigits(s: string, base: nat) {
    forall i :: 0 <= i < |s| ==> DigitValue(s[i]) < base
  }

  predicate AllSpace(s: string) {
    forall i :: 0 <= i < |s| ==> IsSpace(s[i])
  }

  function Value(digits: string, base: nat): nat {
    if digits == "" then 0
    else Value(digits[..|digits| - 1], base) * base + DigitValue(digits[|digits| - 1])
  }

  // ----- strtol

  function SkipSpace(s: string, i: nat): (j: nat)
    requires i <= |s|
    ensures i <= j <= |s| && AllSpace(s[i..j])
    ensures j < |s| ==> !IsSpace(s[j])
    decreases |s| - i
  {
    if i < |s| && IsSpace(s[i]) then SkipSpace(s, i + 1) else i
  }

  function SkipDigits(s: string, i: nat, base: nat): (j: nat)
    requires i <= |s|
    ensures i <= j <= |s| && AllDigits(s[i..j], base)
    ensures j < |s| ==> DigitValue(s[j]) >= base
    decreases |s| - i
  {
    if i < |s| && DigitValue(s[i]) < base then SkipDigits(s, i + 1, base) else i
  }

  /** The base announced by the text at `i`, and where its digits start. */
  function Prefix(s: string, i: nat): (r: (nat, nat))
    requires i <= |s|
    ensures i <= r.1 <= |s|
  {
    if i < |s| && s[i] == '0' then
      if i + 2 < |s| && (s[i + 1] == 'x' || s[i + 1] == 'X') && DigitValue(s[i + 2]) < 16
      then (16, i + 2)
      else (8, i)
    else (10, i)
  }

  function Clamp(v: int): int {
    if v < LONG_MIN then LONG_MIN else if v > LONG_MAX then LONG_MAX else v
  }

  /** The cast of a `long` to an `int`. */
  function ToInt(v: int): (r: int)
    ensures INT_MIN <= r <= INT_MAX
    ensures INT_MIN <= v <= INT_MAX ==> r == v
  {
    (v - INT_MIN) % 0x1_0000_0000 + INT_MIN
  }

  predicate HasSign(s: string, i: nat) {
    i < |s| && (s[i] == '+' || s[i] == '-')
  }

  /** The unsigned number read at `i`, and the index after it; that index is
      `i` when there is no number. */
  function Magnitude(s: string, i: nat): (r: (nat, nat))
    requires i <= |s|
    ensures i <= r.1 <= |s|
  {
    var (base, start) := Prefix(s, i);
    var end := SkipDigits(s, start, base);
    (Value(s[start..end], base), end)
  }

  /** What `strtol(s, &end, 0)` returns, the index it leaves in `end` (0 when
      there is nothing to convert) and whether it sets `errno` to ERANGE. */
  datatype Conversion = Conversion(res: int, end: nat, erange: bool)

  function Converted(v: int, end: nat): Conversion { Conversion(Clamp(v), end, Clamp(v) != v) }

  function Strtol(s: CString): (c: Conversion)
    ensures c.end <= |s|
  {
    var i := SkipSpace(s, 0);
    var j := if HasSign(s, i) then i + 1 else i;
    var (v, end) := Magnitude(s, j);
    if end == j then Conversion(0, 0, false)
    else Converted(Signed(i < j && s[i] == '-', v), end)
  }

  function Signed(negative: bool, n: int): int { if negative then -n else n }

  lemma ValueOfNext(s: string, start: nat, end: nat, base: nat)
    requires start <= end < |s|
    ensures Value(s[start..end + 1], base) == Value(s[start..end], base) * base + DigitValue(s[end])
  {
    assert s[start..end + 1][..end - start] == s[start..end];
  }

  method ReadDigits(s: string, start: nat, base: nat) returns (v: nat, end: nat)
    requires start <= |s|
    ensures end == SkipDigits(s, start, base)
    ensures v == Value(s[start..end], base)
  {
    end, v := start, 0;
    while end < |s| && DigitValue(s[end]) < base
      invariant start <= end <= |s|
      invariant SkipDigits(s, start, base) == SkipDigits(s, end, base)
      invariant v == Value(s[start..end], base)
    {
      ValueOfNext(s, start, end, base);
      v := v * base + DigitValue(s[end]);
      end := end + 1;
    }
  }

  method RunStrtol(s: CString) returns (c: Conversion)
    ensures c == Strtol(s)
  {
    var i := 0;
    while i < |s| && IsSpace(s[i])
      invariant 0 <= i <= |s|
      invariant SkipSpace(s, 0) == SkipSpace(s, i)
    {
      i := i + 1;
    }
    var negative := i < |s| && s[i] == '-';
    var j := if HasSign(s, i) then i + 1 else i;
    var (base, start) := Prefix(s, j);
    var v, end := ReadDigits(s, start, base);
    assert (v, end) == Magnitude(s, j);
    if end == j {
      return Conversion(0, 0, false);
    }
    return Converted(Signed(negative, v), end);
  }

  // ----- parseInt

  /** The returned flag and the value stored through `val`. */
  datatype Parsed = Parsed(rc: bool, val: int)

  function ParseInt(s: CString): (p: Parsed)
    ensures INT_MIN <= p.val <= INT_MAX
  {
    var c := Strtol(s);
    Parsed(c.end != 0 && c.end == |s|, ToInt(c.res))
  }

  /** The code tests the old target against the range of `long` instead of the
      converted number.  An `int` never equals those limits, so neither the old
      target nor `errno` has any say: the flag is exactly that of ParseInt. */
  method RunParseInt(s: CString, oldVal: int) returns (rc: bool, val: int)
    requires INT_MIN <= oldVal <= INT_MAX
    ensures Parsed(rc, val) == ParseInt(s)
  {
    rc := true;
    var c := RunStrtol(s);
    if c.end == 0 || c.end < |s| || ((oldVal == LONG_MIN || oldVal == LONG_MAX) && c.erange) {
      rc := false;
    }
    val := ToInt(c.res);
  }

  // ----- what is read, stated without scanning

  predicate IsWhite(s: string) {
    forall i :: 0 <= i < |s| ==> s[i] == ' ' || 9 <= s[i] as int <= 13
  }

  predicate IsOctal(s: string) {
    forall i :: 0 <= i < |s| ==> '0' <= s[i] <= '7'
  }

  predicate IsDecimal(s: string) {
    forall i :: 0 <= i < |s| ==> '0' <= s[i] <= '9'
  }

  predicate IsHexadecimal(s: string) {
    forall i :: 0 <= i < |s| ==> '0' <= s[i] <= '9' || 'a' <= s[i] <= 'f' || 'A' <= s[i] <= 'F'
  }

  /** A complete base-0 integer: decimal, octal or hexadecimal. */
  predicate IsConstant(b: string) {
    || (b != "" && b[0] != '0' && IsDecimal(b))
    || (b != "" && b[0] == '0' && IsOctal(b))
    || (|b| >= 3 && b[0] == '0' && (b[1] == 'x' || b[1] == 'X') && IsHexadecimal(b[2..]))
  }

  function Denotes(b: string): nat
    requires IsConstant(b)
  {
    if b[0] != '0' then Value(b, 10)
    else if IsOctal(b) then Value(b, 8)
    else Value(b[2..], 16)
  }

  /** No longer part of `body + tail` is a constant. */
  ghost predicate IsLongest(body: string, tail: string) {
    forall k :: |body| < k <= |body + tail| ==> !IsConstant((body + tail)[..k])
  }

  /** White space, an optional sign, the longest constant, and what follows it. */
  ghost predicate IsLeading(s: string, white: string, sign: string, body: string, tail: string) {
    && s == white + sign + (body + tail) && IsWhite(white) && (sign == "" || sign == "+" || sign == "-")
    && IsConstant(body) && IsLongest(body, tail)
  }

  /** The number stored for a text: the one it begins with, clamped to a `long` and
      cast, or 0 if it begins with none. */
  ghost predicate Reads(s: string, n: int) {
    if exists white, sign, body, tail :: IsLeading(s, white, sign, body, tail)
    then exists white, sign, body, tail ::
        IsLeading(s, white, sign, body, tail) && n == ToInt(Clamp(Signed(sign == "-", Denotes(body))))
    else n == 0
  }

  lemma SameDigits(s: string)
    ensures IsWhite(s) <==> AllSpace(s)
    ensures IsOctal(s) <==> AllDigits(s, 8)
    ensures IsDecimal(s) <==> AllDigits(s, 10)
    ensures IsHexadecimal(s) <==> AllDigits(s, 16)
  {
    assert forall c: char :: DigitValue(c) < 8 <==> '0' <= c <= '7';
    assert forall c: char :: DigitValue(c) < 10 <==> '0' <= c <= '9';
    assert forall c: char :: DigitValue(c) < 16 <==> '0' <= c <= '9' || 'a' <= c <= 'f' || 'A' <= c <= 'F';
  }

  lemma {:induction false} SkipSpaceStops(s: string, i: nat, j: nat)
    requires i <= j <= |s| && AllSpace(s[i..j])
    requires j < |s| ==> !IsSpace(s[j])
    ensures SkipSpace(s, i) == j
    decreases j - i
  {
    if i < j {
      assert s[i..j][0] == s[i];
      assert s[i + 1..j] == s[i..j][1..];
      SkipSpaceStops(s, i + 1, j);
    }
  }

  lemma {:induction false} SkipDigitsStops(s: string, i: nat, j: nat, base: nat)
    requires i <= j <= |s| && AllDigits(s[i..j], base)
    requires j < |s| ==> DigitValue(s[j]) >= base
    ensures SkipDigits(s, i, base) == j
    decreases j - i
  {
    if i < j {
      assert s[i..j][0] == s[i];
      assert s[i + 1..j] == s[i..j][1..];
      SkipDigitsStops(s, i + 1, j, base);
    }
  }

  /** The base and the first digit of a constant. */
  function BaseOf(b: string): (r: (nat, nat))
    requires IsConstant(b)
    ensures r.1 < |b|
  {
    if b[0] != '0' then (10, 0) else if IsOctal(b) then (8, 0) else (16, 2)
  }

  lemma ConstantDigits(b: string)
    requires IsConstant(b)
    ensures var (base, start) := BaseOf(b); AllDigits(b[start..], base) && Denotes(b) == Value(b[start..], base)
  {
    SameDigits(b);
    assert b[0..] == b;
    if |b| >= 2 {
      SameDigits(b[2..]);
    }
  }

  /** With one more digit it is a constant still. */
  lemma ConstantExtended(b: string, c: char)
    requires IsConstant(b) && DigitValue(c) < BaseOf(b).0
    ensures IsConstant(b + [c])
  {
    SameDigits([c]);
    assert [c][0] == c;
    if BaseOf(b).0 == 16 {
      assert (b + [c])[2..] == b[2..] + [c];
    }
  }

  lemma LongestStops(body: string, tail: string)
    requires IsConstant(body) && IsLongest(body, tail)
    ensures tail != "" ==> DigitValue(tail[0]) >= BaseOf(body).0
  {
    if tail != "" {
      assert (body + tail)[..|body| + 1] == body + [tail[0]];
      if DigitValue(tail[0]) < BaseOf(body).0 {
        ConstantExtended(body, tail[0]);
      }
    }
  }

  /** A prefix `0x` with a digit after it is part of the longest constant. */
  lemma LongestTakesPrefix(body: string, tail: string)
    requires IsConstant(body) && IsLongest(body, tail) && Prefix(body + tail, 0).0 == 16
    ensures BaseOf(body).0 == 16
  {
    var all := body + tail;
    SameDigits(all[2..3]);
    assert all[2..3][0] == all[2];
    assert all[..3][2..] == all[2..3];
    assert IsConstant(all[..3]);
    assert |body| >= 3;
    assert body[1] == all[1];
  }

  lemma PrefixOfConstant(body: string, tail: string)
    requires IsConstant(body) && IsLongest(body, tail)
    ensures Prefix(body + tail, 0) == BaseOf(body)
  {
    var all := body + tail;
    assert all[0] == body[0];
    if BaseOf(body).0 == 16 {
      assert all[1] == body[1] && all[2] == body[2];
      SameDigits(body[2..]);
      assert body[2..][0] == body[2];
      assert !('0' <= body[1] <= '7');
    } else if Prefix(all, 0).0 == 16 {
      LongestTakesPrefix(body, tail);
    }
  }

  lemma PrefixFrom(s: string, j: nat)
    requires j <= |s|
    ensures Prefix(s, j) == (Prefix(s[j..], 0).0, j + Prefix(s[j..], 0).1)
  {}

  lemma PartsAt(s: string, j: nat, body: string, tail: string, start: nat)
    requires j <= |s| && s[j..] == body + tail && start <= |body|
    ensures s[j + start..j + |body|] == body[start..]
    ensures j + |body| < |s| <==> tail != ""
    ensures tail != "" ==> s[j + |body|] == tail[0]
  {
    assert forall i :: j <= i < |s| ==> s[i] == s[j..][i - j];
  }

  lemma LeadingRead(s: string, j: nat, body: string, tail: string)
    requires j <= |s| && s[j..] == body + tail && IsConstant(body) && IsLongest(body, tail)
    ensures Magnitude(s, j) == (Denotes(body), j + |body|)
  {
    var (base, start) := BaseOf(body);
    var end := j + |body|;
    PrefixFrom(s, j);
    PrefixOfConstant(body, tail);
    ConstantDigits(body);
    LongestStops(body, tail);
    PartsAt(s, j, body, tail, start);
    SkipDigitsStops(s, j + start, end, base);
  }

  lemma FourParts(s: string, white: string, sign: string, body: string, tail: string)
    requires s == white + sign + (body + tail)
    ensures var i, j := |white|, |white| + |sign|;
      && s[0..i] == white && s[j..] == body + tail && (i < j ==> s[i] == sign[0])
      && (body != "" ==> s[j] == body[0])
  {}

  lemma LeadingScanned(s: string, white: string, sign: string, body: string, tail: string)
    requires IsLeading(s, white, sign, body, tail)
    ensures var i, j := |white|, |white| + |sign|;
      SkipSpace(s, 0) == i && (HasSign(s, i) <==> i < j) && (i < j ==> s[i] == sign[0]) && s[j..] == body + tail
  {
    FourParts(s, white, sign, body, tail);
    SameDigits(white);
    assert '0' <= body[0] <= '9';
    SkipSpaceStops(s, 0, |white|);
  }

  lemma LeadingConverted(s: CString, white: string, sign: string, body: string, tail: string)
    requires IsLeading(s, white, sign, body, tail)
    ensures Strtol(s) == Converted(Signed(sign == "-", Denotes(body)), |white| + |sign| + |body|)
    ensures Strtol(s).end > 0 && (Strtol(s).end == |s| <==> tail == "")
  {
    LeadingScanned(s, white, sign, body, tail);
    LeadingRead(s, |white| + |sign|, body, tail);
  }

  /** A text that begins with a number stores it, and is accepted exactly when
      nothing follows. */
  lemma LeadingParsed(s: CString, white: string, sign: string, body: string, tail: string)
    requires IsLeading(s, white, sign, body, tail)
    ensures ParseInt(s) == Parsed(tail == "", ToInt(Clamp(Signed(sign == "-", Denotes(body)))))
  {
    LeadingConverted(s, white, sign, body, tail);
  }

  lemma ReadIsConstant(s: string)
    requires Magnitude(s, 0).1 > 0
    ensures var end := Magnitude(s, 0).1; IsConstant(s[..end]) && BaseOf(s[..end]) == Prefix(s, 0)
  {
    var (base, start) := Prefix(s, 0);
    var end := Magnitude(s, 0).1;
    var body := s[..end];
    SameDigits(s[start..end]);
    assert start < end by { assert base == 16 ==> DigitValue(s[2]) < 16; }
    assert body[0] == s[0];
    if base == 16 {
      assert body[2..] == s[2..end] && body[1] == s[1];
    } else {
      assert s[start..end] == body;
    }
  }

  lemma ReadIsLongest(s: string)
    requires Magnitude(s, 0).1 > 0
    ensures var end := Magnitude(s, 0).1; IsLongest(s[..end], s[end..])
  {
    var end := Magnitude(s, 0).1;
    ReadIsConstant(s);
    assert s[..end] + s[end..] == s;
    forall k | end < k <= |s|
      ensures !IsConstant(s[..k])
    {
      if IsConstant(s[..k]) {
        ScanCovers(s, k);
      }
    }
  }

  lemma SkipDigitsCovers(s: string, i: nat, k: nat, base: nat)
    requires i <= k <= |s| && AllDigits(s[i..k], base)
    ensures SkipDigits(s, i, base) >= k
  {
    assert forall x :: i <= x < k ==> s[i..k][x - i] == s[x];
  }

  /** The scan reads every constant at the start of the text. */
  lemma ScanCovers(s: string, k: nat)
    requires k <= |s| && IsConstant(s[..k])
    ensures k <= Magnitude(s, 0).1
  {
    var b := s[..k];
    var (base, start) := Prefix(s, 0);
    ConstantDigits(b);
    assert b[0] == s[0];
    assert k > 1 ==> b[1] == s[1];
    assert k > 2 ==> b[2..][0] == s[2];
    if BaseOf(b) == (base, start) {
      assert s[start..k] == b[start..];
      SkipDigitsCovers(s, start, k, base);
    }
  }

  lemma {:induction false} SkipDigitsFrom(before: string, s: string, i: nat, base: nat)
    requires i <= |s|
    ensures SkipDigits(before + s, |before| + i, base) == |before| + SkipDigits(s, i, base)
    decreases |s| - i
  {
    if i < |s| {
      assert (before + s)[|before| + i] == s[i];
      SkipDigitsFrom(before, s, i + 1, base);
    }
  }

  lemma MagnitudeFrom(before: string, s: string)
    ensures Magnitude(before + s, |before|).1 == |before| + Magnitude(s, 0).1
  {
    assert (before + s)[|before|..] == s;
    PrefixFrom(before + s, |before|);
    var (base, start) := Prefix(s, 0);
    SkipDigitsFrom(before, s, start, base);
  }

  lemma ReadIsBody(s: string) returns (body: string, tail: string)
    requires Magnitude(s, 0).1 > 0
    ensures s == body + tail && IsConstant(body) && IsLongest(body, tail)
  {
    var end := Magnitude(s, 0).1;
    ReadIsConstant(s);
    ReadIsLongest(s);
    body, tail := s[..end], s[end..];
  }

  lemma ThreeParts(s: string, i: nat, j: nat)
    requires i <= j <= |s|
    ensures s == s[0..i] + s[i..j] + s[j..]
  {}

  /** Where the number starts: after white space and a sign. */
  function NumberAt(s: string): (j: nat)
    ensures SkipSpace(s, 0) <= j <= |s|
  {
    var i := SkipSpace(s, 0);
    if HasSign(s, i) then i + 1 else i
  }

  lemma SignBefore(s: string)
    ensures var sign := s[SkipSpace(s, 0)..NumberAt(s)]; sign == "" || sign == "+" || sign == "-"
    ensures IsWhite(s[0..SkipSpace(s, 0)])
  {
    SameDigits(s[0..SkipSpace(s, 0)]);
  }

  lemma NumberRead(s: CString)
    requires Strtol(s).end > 0
    ensures Magnitude(s[NumberAt(s)..], 0).1 > 0
  {
    var j := NumberAt(s);
    assert s[..j] + s[j..] == s;
    MagnitudeFrom(s[..j], s[j..]);
  }

  /** The scan finds the split. */
  lemma ReadIsLeading(s: CString) returns (white: string, sign: string, body: string, tail: string)
    requires Strtol(s).end > 0
    ensures IsLeading(s, white, sign, body, tail)
  {
    var i, j := SkipSpace(s, 0), NumberAt(s);
    NumberRead(s);
    SignBefore(s);
    white, sign := s[0..i], s[i..j];
    body, tail := ReadIsBody(s[j..]);
    ThreeParts(s, i, j);
  }

  /** The flag and the value of every text. */
  lemma ParsedExactly(s: CString)
    ensures Reads(s, ParseInt(s).val)
    ensures ParseInt(s).rc <==> exists white, sign, body :: IsLeading(s, white, sign, body, "")
  {
    if Strtol(s).end > 0 {
      var white, sign, body, tail := ReadIsLeading(s);
      LeadingParsed(s, white, sign, body, tail);
    } else {
      NothingRead(s);
    }
    forall white, sign, body | IsLeading(s, white, sign, body, "")
      ensures ParseInt(s).rc
    {
      LeadingParsed(s, white, sign, body, "");
    }
  }

  lemma NothingRead(s: CString)
    requires Strtol(s).end == 0
    ensures ParseInt(s) == Parsed(false, 0)
    ensures !exists white, sign, body, tail :: IsLeading(s, white, sign, body, tail)
  {
    forall white, sign, body, tail | IsLeading(s, white, sign, body, tail)
      ensures false
    {
      LeadingConverted(s, white, sign, body, tail);
    }
  }

  predicate IsSplit(s: string, white: string, sign: string, body: string) {
    s == white + sign + body && IsWhite(white) && (sign == "" || sign == "+" || sign == "-") && IsConstant(body)
  }

  lemma SplitIsLeading(s: string, white: string, sign: string, body: string)
    ensures IsSplit(s, white, sign, body) <==> IsLeading(s, white, sign, body, "")
  {
    assert body + "" == body;
  }

  /** The accepted strings are exactly: white space, an optional sign, and a
      complete base-0 integer, with nothing after it. */
  lemma AcceptedExactly(s: CString)
    ensures ParseInt(s).rc <==> exists white, sign, body :: IsSplit(s, white, sign, body)
  {
    ParsedExactly(s);
    forall white, sign, body
      ensures IsSplit(s, white, sign, body) <==> IsLeading(s, white, sign, body, "")
    {
      SplitIsLeading(s, white, sign, body);
    }
  }

  /** Every text of the grammar is accepted, and its value stored. */
  lemma ConstantParsed(s: CString, white: string, sign: string, body: string)
    requires IsSplit(s, white, sign, body)
    ensures ParseInt(s) == Parsed(true, ToInt(Clamp(Signed(sign == "-", Denotes(body)))))
  {
    SplitIsLeading(s, white, sign, body);
    LeadingParsed(s, white, sign, body, "");
  }

  /** The cast keeps the last 32 bits. */
  lemma CastCongruent(v: int)
    ensures (ToInt(v) - v) % 0x1_0000_0000 == 0
  {
    var q := (v - INT_MIN) / 0x1_0000_0000;
    assert ToInt(v) - v == -q * 0x1_0000_0000;
  }

  lemma CastOfLimits()
    ensures ToInt(LONG_MAX) == -1 && ToInt(LONG_MIN) == 0
  {
    assert LONG_MAX - INT_MIN == 0x7fff_ffff * 0x1_0000_0000 + 0x1_7fff_ffff;
  }

  /** What the clamp and the cast make of a number: it keeps its last 32 bits if it
      is a `long`; beyond that it becomes -1 above and 0 below. */
  lemma StoredOf(n: int)
    ensures var v := ToInt(Clamp(n));
      && -0x8000_0000 <= v <= 0x7fff_ffff
      && (-0x8000_0000_0000_0000 <= n <= 0x7fff_ffff_ffff_ffff ==> (v - n) % 0x1_0000_0000 == 0)
      && (n > 0x7fff_ffff_ffff_ffff ==> v == -1) && (n < -0x8000_0000_0000_0000 ==> v == 0)
    ensures Converted(n, 0).erange <==> n < -0x8000_0000_0000_0000 || n > 0x7fff_ffff_ffff_ffff
  {
    CastCongruent(n);
    CastOfLimits();
  }

  /** An accepted text stores the number it denotes exactly when that number is
      an `int`; out-of-range text is accepted too, and stores another number. */
  lemma StoredFaithfullyIff(s: CString, white: string, sign: string, body: string)
    requires IsSplit(s, white, sign, body)
    ensures var n := Signed(sign == "-", Denotes(body));
      ParseInt(s).rc && (ParseInt(s).val == n <==> INT_MIN <= n <= INT_MAX)
  {
    ConstantParsed(s, white, sign, body);
  }

  // ----- letters of either case

  function Upper(c: char): char { if 'a' <= c <= 'z' then c - 'a' + 'A' else c }

  function UpperCase(s: string): (r: string)
    ensures |r| == |s| && forall i :: 0 <= i < |s| ==> r[i] == Upper(s[i])
  {
    seq(|s|, i requires 0 <= i < |s| => Upper(s[i]))
  }

  lemma UpperReads(c: char)
    ensures DigitValue(Upper(c)) == DigitValue(c) && IsSpace(Upper(c)) == IsSpace(c)
    ensures Upper(c) == NUL <==> c == NUL
    ensures Upper(c) == '0' <==> c == '0'
    ensures Upper(c) == 'X' <==> c == 'x' || c == 'X'
    ensures (Upper(c) == '+' <==> c == '+') && (Upper(c) == '-' <==> c == '-')
    ensures Upper(c) != 'x'
  {}

  lemma {:induction false} UpperSkipSpace(s: string, i: nat)
    requires i <= |s|
    ensures SkipSpace(UpperCase(s), i) == SkipSpace(s, i)
    decreases |s| - i
  {
    if i < |s| {
      UpperReads(s[i]);
      UpperSkipSpace(s, i + 1);
    }
  }

  lemma {:induction false} UpperSkipDigits(s: string, i: nat, base: nat)
    requires i <= |s|
    ensures SkipDigits(UpperCase(s), i, base) == SkipDigits(s, i, base)
    decreases |s| - i
  {
    if i < |s| {
      UpperReads(s[i]);
      UpperSkipDigits(s, i + 1, base);
    }
  }

  lemma {:induction false} UpperValue(s: string, base: nat)
    ensures Value(UpperCase(s), base) == Value(s, base)
  {
    if s != "" {
      var k := |s| - 1;
      assert UpperCase(s)[..k] == UpperCase(s[..k]);
      UpperReads(s[k]);
      UpperValue(s[..k], base);
    }
  }

  lemma UpperMagnitude(s: string, i: nat)
    requires i <= |s|
    ensures Magnitude(UpperCase(s), i) == Magnitude(s, i)
  {
    forall c: char
      ensures DigitValue(Upper(c)) == DigitValue(c) && (Upper(c) == '0' <==> c == '0')
      ensures Upper(c) != 'x' && (Upper(c) == 'X' <==> c == 'x' || c == 'X')
    {
      UpperReads(c);
    }
    var (base, start) := Prefix(s, i);
    assert Prefix(UpperCase(s), i) == (base, start);
    var end := SkipDigits(s, start, base);
    UpperSkipDigits(s, start, base);
    assert UpperCase(s)[start..end] == UpperCase(s[start..end]);
    UpperValue(s[start..end], base);
  }

  lemma UpperNulFree(s: CString)
    ensures NulFree(UpperCase(s))
  {
    forall i | 0 <= i < |s|
      ensures UpperCase(s)[i] != NUL
    {
      UpperReads(s[i]);
    }
  }

  /** The case of letters makes no difference, to the flag or to the value. */
  lemma CaseIrrelevant(s: CString)
    ensures NulFree(UpperCase(s)) && ParseInt(UpperCase(s)) == ParseInt(s)
  {
    var i := SkipSpace(s, 0);
    UpperNulFree(s);
    UpperSkipSpace(s, 0);
    if i < |s| {
      UpperReads(s[i]);
    }
    assert HasSign(UpperCase(s), i) == HasSign(s, i);
    UpperMagnitude(s, if HasSign(s, i) then i + 1 else i);
  }

  // ----- printing, and reading back

  function Digit(d: nat): char
    requires d < 16
  {
    "0123456789abcdef"[d]
  }

  predicate IsBase(base: nat) { base == 8 || base == 10 || base == 16 }

  lemma DivisionFacts(n: nat, base: nat)
    requires IsBase(base) && base <= n
    ensures 0 < n / base < n && 0 <= n % base < base
    ensures n / base * base + n % base == n
  {}

  function Digits(n: nat, base: nat): (s: string)
    requires IsBase(base)
    ensures s != "" && (s[0] == '0' <==> n == 0)
  {
    if n < base then [Digit(n)] else DivisionFacts(n, base); Digits(n / base, base) + [Digit(n % base)]
  }

  lemma DigitRead(d: nat)
    requires d < 16
    ensures DigitValue(Digit(d)) == d && Digit(d) != NUL
    ensures DigitValue("0123456789ABCDEF"[d]) == d
  {}

  lemma ValueOfAppended(s: string, d: nat, base: nat)
    requires d < 16
    ensures Value(s + [Digit(d)], base) == Value(s, base) * base + d
  {
    DigitRead(d);
    assert (s + [Digit(d)])[..|s|] == s;
  }

  lemma {:induction false} DigitsChars(n: nat, base: nat)
    requires IsBase(base)
    ensures AllDigits(Digits(n, base), base) && NulFree(Digits(n, base))
  {
    if n < base {
      DigitRead(n);
    } else {
      DivisionFacts(n, base);
      DigitsChars(n / base, base);
      DigitRead(n % base);
    }
  }

  lemma OneDigitValue(n: nat, base: nat)
    requires n < 16
    ensures Value([Digit(n)], base) == n
  {
    ValueOfAppended("", n, base);
    assert "" + [Digit(n)] == [Digit(n)];
  }

  lemma {:induction false} DigitsValue(n: nat, base: nat)
    requires IsBase(base)
    ensures Value(Digits(n, base), base) == n
  {
    if n < base {
      OneDigitValue(n, base);
    } else {
      DivisionFacts(n, base);
      DigitsValue(n / base, base);
      ValueOfAppended(Digits(n / base, base), n % base, base);
    }
  }

  lemma DigitsRead(n: nat, base: nat)
    requires IsBase(base)
    ensures var s := Digits(n, base); AllDigits(s, base) && NulFree(s) && Value(s, base) == n
  {
    DigitsChars(n, base);
    DigitsValue(n, base);
  }

  function Abs(n: int): nat { if n < 0 then -n else n }

  function SignOf(n: int): string { if n < 0 then "-" else "" }

  function Decimal(n: int): string { SignOf(n) + Digits(Abs(n), 10) }

  function Hexadecimal(n: int): string { SignOf(n) + ("0x" + Digits(Abs(n), 16)) }

  function Octal(n: int): string { SignOf(n) + ("0" + Digits(Abs(n), 8)) }

  lemma {:induction false} LeadingZero(s: string, base: nat)
    requires AllDigits(s, base) && base > 0
    ensures AllDigits("0" + s, base) && Value("0" + s, base) == Value(s, base)
  {
    if s != "" {
      var k := |s| - 1;
      assert ("0" + s)[..k + 1] == "0" + s[..k];
      LeadingZero(s[..k], base);
    } else {
      assert ("0" + s)[..0] == "";
    }
  }

  /** parseInt undoes all three ways of printing an `int`. */
  lemma PrintedIsParsed(n: int)
    requires INT_MIN <= n <= INT_MAX
    ensures NulFree(Decimal(n)) && ParseInt(Decimal(n)) == Parsed(true, n)
    ensures NulFree(Hexadecimal(n)) && ParseInt(Hexadecimal(n)) == Parsed(true, n)
    ensures NulFree(Octal(n)) && ParseInt(Octal(n)) == Parsed(true, n)
    ensures NulFree(UpperCase(Hexadecimal(n))) && ParseInt(UpperCase(Hexadecimal(n))) == Parsed(true, n)
  {
    var a := Abs(n);
    DecimalBody(a);
    HexadecimalBody(a);
    OctalBody(a);
    ReadBack(n, Digits(a, 10));
    ReadBack(n, "0x" + Digits(a, 16));
    ReadBack(n, "0" + Digits(a, 8));
    CaseIrrelevant(Hexadecimal(n));
  }

  lemma ReadBack(n: int, body: string)
    requires INT_MIN <= n <= INT_MAX && NulFree(body)
    requires IsConstant(body) && Denotes(body) == Abs(n)
    ensures NulFree(SignOf(n) + body) && ParseInt(SignOf(n) + body) == Parsed(true, n)
  {
    assert "" + SignOf(n) + body == SignOf(n) + body;
    ConstantParsed(SignOf(n) + body, "", SignOf(n), body);
  }

  lemma DecimalBody(a: nat)
    ensures var d := Digits(a, 10); NulFree(d) && IsConstant(d) && Denotes(d) == a
  {
    DigitsRead(a, 10);
    var d := Digits(a, 10);
    if a == 0 {
      assert d == "0";
      DigitsRead(0, 8);
    }
  }

  lemma HexadecimalBody(a: nat)
    ensures var h := "0x" + Digits(a, 16); NulFree(h) && IsConstant(h) && Denotes(h) == a
  {
    DigitsRead(a, 16);
    var h := "0x" + Digits(a, 16);
    assert h[2..] == Digits(a, 16);
    assert DigitValue(h[1]) > 8;
  }

  lemma OctalBody(a: nat)
    ensures var o := "0" + Digits(a, 8); NulFree(o) && IsConstant(o) && Denotes(o) == a
  {
    DigitsRead(a, 8);
    LeadingZero(Digits(a, 8), 8);
  }
}
