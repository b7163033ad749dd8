/** Stream ids: two 64-bit numbers, ordered, and written as decimal text
    (include/Database/ConcreteValues/Stream/StreamMessage.h). */
module StreamIds {
  import opened Bytes

  type uint64 = n: nat | n < TWO64

  datatype StreamId = StreamId(milliseconds: uint64, sequenceNumber: uint64)

  predicate Less(a: StreamId, b: StreamId) {
    a.milliseconds < b.milliseconds || (a.milliseconds == b.milliseconds && a.sequenceNumber < b.sequenceNumber)
  }

  predicate Greater(a: StreamId, b: StreamId) {
    a.milliseconds > b.milliseconds || (a.milliseconds == b.milliseconds && a.sequenceNumber > b.sequenceNumber)
  }

  predicate AtMost(a: StreamId, b: StreamId) {
    !Greater(a, b)
  }

  predicate AtLeast(a: StreamId, b: StreamId) {
    !Less(a, b)
  }

  /** The six operators describe one strict total order. */
  lemma OperatorsAreOneTotalOrder(a: StreamId, b: StreamId, c: StreamId)
    ensures Less(a, b) <==> Greater(b, a)
    ensures AtMost(a, b) <==> Less(a, b) || a == b
    ensures AtLeast(a, b) <==> AtMost(b, a)
    ensures !Less(a, a) && (Less(a, b) || a == b || Less(b, a))
    ensures !(Less(a, b) && Less(b, a))
    ensures Less(a, b) && Less(b, c) ==> Less(a, c)
  {
  }

  /** The order is that of the milliseconds first and the sequence number second. */
  lemma OrderIsLexicographic(a: StreamId, b: StreamId)
    ensures Less(a, b) <==> a.milliseconds * 0x1_0000_0000_0000_0000 + a.sequenceNumber
                            < b.milliseconds * 0x1_0000_0000_0000_0000 + b.sequenceNumber
  {
  }

  // ------------------------------------------------------------- decimals

  const ZERO: byte := 48
  const DASH: byte := 45
  const PLUS: byte := 43

  predicate IsDigit(c: byte) {
    ZERO <= c <= ZERO + 9
  }

  predicate IsSpace(c: byte) {
    c == 32 || 9 <= c <= 13
  }

  /** `std::to_string` of an unsigned number. */
  function ToDecimal(n: nat): Str {
    (if n < 10 then [] else ToDecimal(n / 10)) + [ZERO + n % 10]
  }

  function DigitRun(s: Str): (n: nat)
    ensures n <= |s|
  {
    if s == [] || !IsDigit(s[0]) then 0 else 1 + DigitRun(s[1..])
  }

  /** The number written by a string of digits. */
  function FromDecimal(s: Str): nat
    requires forall i :: 0 <= i < |s| ==> IsDigit(s[i])
  {
    if s == [] then 0
    else assert IsDigit(s[|s| - 1]); 10 * FromDecimal(s[..|s| - 1]) + (s[|s| - 1] - ZERO)
  }

  lemma DigitRunIsDigits(s: Str)
    ensures forall i :: 0 <= i < DigitRun(s) ==> IsDigit(s[i])
    ensures (forall i :: 0 <= i < |s| ==> IsDigit(s[i])) ==> DigitRun(s) == |s|
  {
  }

  datatype Parsed<T> = Malformed | OutOfRange | Good(value: T)

  function SkipSpace(s: Str): Str {
    if s != [] && IsSpace(s[0]) then SkipSpace(s[1..]) else s
  }

  /** `std::stoull`: leading blanks and a sign are allowed, anything after the
      digits is ignored, and a minus sign negates modulo 2^64. */
  function Stoull(text: Str): Parsed<uint64> {
    var s := SkipSpace(text);
    var negative := s != [] && s[0] == DASH;
    var t := if s != [] && (s[0] == DASH || s[0] == PLUS) then s[1..] else s;
    var n := DigitRun(t);
    DigitRunIsDigits(t);
    if n == 0 then Malformed
    else if FromDecimal(t[..n]) >= TWO64 then OutOfRange
    else Good(if negative then (TWO64 - FromDecimal(t[..n])) % TWO64 else FromDecimal(t[..n]))
  }

  /** `str.find('-')`; `|s|` when there is none. */
  function FindDash(s: Str): (p: nat)
    ensures p <= |s| && (p < |s| ==> s[p] == DASH)
  {
    if s == [] || s[0] == DASH then 0 else 1 + FindDash(s[1..])
  }

  function ToString(id: StreamId): Str {
    ToDecimal(id.milliseconds) + [DASH] + ToDecimal(id.sequenceNumber)
  }

  function Parse(s: Str): Parsed<StreamId> {
    var p := FindDash(s);
    if p == |s| then Malformed
    else match Stoull(s[..p])
         case Malformed => Malformed
         case OutOfRange => OutOfRange
         case Good(ms) =>
           match Stoull(s[p + 1..])
           case Malformed => Malformed
           case OutOfRange => OutOfRange
           case Good(n) => Good(StreamId(ms, n))
  }

  lemma {:induction false} DecimalRoundTrip(n: nat)
    ensures ToDecimal(n) != [] && forall i :: 0 <= i < |ToDecimal(n)| ==> IsDigit(ToDecimal(n)[i])
    ensures FromDecimal(ToDecimal(n)) == n
  {
    if n >= 10 {
      DecimalRoundTrip(n / 10);
    }
    var s := ToDecimal(n);
    assert s[..|s| - 1] == if n < 10 then [] else ToDecimal(n / 10);
  }

  lemma StoullOfDigits(s: Str)
    requires s != [] && forall i :: 0 <= i < |s| ==> IsDigit(s[i])
    ensures Stoull(s) == if FromDecimal(s) >= TWO64 then OutOfRange else Good(FromDecimal(s))
  {
    DigitRunIsDigits(s);
    assert IsDigit(s[0]) && SkipSpace(s) == s;
    assert s[..|s|] == s;
  }

  lemma StoullOfDecimal(n: uint64)
    ensures Stoull(ToDecimal(n)) == Good(n)
  {
    hide Stoull;
    DecimalRoundTrip(n);
    StoullOfDigits(ToDecimal(n));
  }

  /** Writing an id as text and parsing it gives the id back, for all 64-bit parts. */
  lemma ParseToString(id: StreamId)
    ensures Parse(ToString(id)) == Good(id)
  {
    var a, b := ToDecimal(id.milliseconds), ToDecimal(id.sequenceNumber);
    DecimalRoundTrip(id.milliseconds);
    DecimalRoundTrip(id.sequenceNumber);
    DashAfterText(a, b);
    var s := a + [DASH] + b;
    assert s[..|a|] == a && s[|a| + 1..] == b;
    StoullOfDecimal(id.milliseconds);
    StoullOfDecimal(id.sequenceNumber);
  }

  /** The text of an id: the two numbers in decimal, bytes 48 to 57 without leading zeros,
      with one byte 45 between them. */
  lemma TextOfId(id: StreamId)
    ensures ToString(id) == ToDecimal(id.milliseconds) + [45] + ToDecimal(id.sequenceNumber)
  {
  }

  lemma {:induction false} TextOfNumber(n: nat)
    ensures n < 10 ==> ToDecimal(n) == [48 + n]
    ensures n >= 10 ==> ToDecimal(n) == ToDecimal(n / 10) + [48 + n % 10]
    ensures forall i :: 0 <= i < |ToDecimal(n)| ==> 48 <= ToDecimal(n)[i] <= 57
    ensures ToDecimal(n) != [] && (n > 0 ==> ToDecimal(n)[0] != 48)
  {
    if n >= 10 { TextOfNumber(n / 10); }
  }

  /** The number digits write: its last digit and ten times the rest. */
  lemma NumberOfText(s: Str, ch: byte)
    requires (forall i :: 0 <= i < |s| ==> 48 <= s[i] <= 57) && 48 <= ch <= 57
    ensures FromDecimal([]) == 0 && FromDecimal(s + [ch]) == 10 * FromDecimal(s) + (ch - 48)
  {
    assert (s + [ch])[..|s|] == s;
  }

  ghost predicate Blank(s: Str) {
    forall i :: 0 <= i < |s| ==> s[i] == 32 || 9 <= s[i] <= 13
  }

  ghost predicate Digits(s: Str) {
    forall i :: 0 <= i < |s| ==> 48 <= s[i] <= 57
  }

  lemma {:induction false} BlanksAreSkipped(blanks: Str, t: Str)
    requires Blank(blanks) && (t != [] ==> !(t[0] == 32 || 9 <= t[0] <= 13))
    ensures SkipSpace(blanks + t) == t
  {
    if blanks == [] {
      assert blanks + t == t;
    } else {
      assert (blanks + t)[1..] == blanks[1..] + t;
      BlanksAreSkipped(blanks[1..], t);
    }
  }

  lemma {:induction false} RunEnds(digits: Str, rest: Str)
    requires Digits(digits) && (rest != [] ==> !(48 <= rest[0] <= 57))
    ensures DigitRun(digits + rest) == |digits|
  {
    if digits == [] {
      assert digits + rest == rest;
    } else {
      assert (digits + rest)[1..] == digits[1..] + rest;
      RunEnds(digits[1..], rest);
    }
  }

  /** What `std::stoull` makes of a text: blanks (32, 9 to 13) are skipped, one sign (43 or 45)
      may follow, the digits that come next are the number, and the rest is ignored; without
      digits it is malformed, past 2^64 - 1 out of range, and a minus sign negates modulo 2^64. */
  lemma StoullReads(blanks: Str, sign: Str, digits: Str, rest: Str)
    requires Blank(blanks) && (sign == [] || sign == [43] || sign == [45]) && Digits(digits)
    requires rest != [] ==> !(48 <= rest[0] <= 57)
    requires sign == [] && digits == [] && rest != [] ==>
               !(rest[0] == 32 || 9 <= rest[0] <= 13 || rest[0] == 43 || rest[0] == 45)
    ensures var value, r := FromDecimal(digits), Stoull(blanks + (sign + (digits + rest)));
            && (digits == [] <==> r == Malformed)
            && (digits != [] && value >= 0x1_0000_0000_0000_0000 ==> r == OutOfRange)
            && (digits != [] && value < 0x1_0000_0000_0000_0000 && sign != [45] ==> r == Good(value))
            && (digits != [] && 0 < value < 0x1_0000_0000_0000_0000 && sign == [45] ==>
                  r == Good(0x1_0000_0000_0000_0000 - value))
            && (digits != [] && value == 0 ==> r == Good(0))
  {
    hide SkipSpace, DigitRun;
    var t := digits + rest;
    var s := sign + t;
    BlanksAreSkipped(blanks, s);
    RunEnds(digits, rest);
    assert sign != [] ==> s[0] == sign[0] && s[1..] == t;
    assert sign == [] ==> s == t;
    assert t[..|digits|] == digits;
  }

  /** An id is parsed at the first byte 45, and without one it is malformed. */
  lemma ParseSplits(x: Str, y: Str)
    requires forall i :: 0 <= i < |x| ==> x[i] != 45
    ensures Parse(x) == Malformed
    ensures Parse(x + [45] + y).Good? <==> Stoull(x).Good? && Stoull(y).Good?
    ensures Parse(x + [45] + y).Good? ==> Parse(x + [45] + y).value == StreamId(Stoull(x).value, Stoull(y).value)
    ensures Parse(x + [45] + y).OutOfRange? <==> Stoull(x).OutOfRange? || (Stoull(x).Good? && Stoull(y).OutOfRange?)
  {
    hide Stoull;
    DashAfterText(x, y);
    var s := x + [45] + y;
    assert s[..|x|] == x && s[|x| + 1..] == y;
  }

  lemma {:induction false} DashAfterText(x: Str, y: Str)
    requires forall i :: 0 <= i < |x| ==> x[i] != 45
    ensures FindDash(x) == |x| && FindDash(x + [45] + y) == |x|
  {
    if x == [] {
      assert ([] + [45] + y)[0] == 45;
    } else {
      DashAfterText(x[1..], y);
      assert (x + [45] + y)[1..] == x[1..] + [45] + y;
    }
  }
}
