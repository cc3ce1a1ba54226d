/** Values and C library facts shared by the other modules: optional values,
    case-insensitive comparison, blanks, and the decimal numbers that the server
    prints with `%lu` and reads back with `strtoul`. */
module Common {

  datatype Option<+T> = None | Some(value: T)

  const NUL: char := '\0'

  /** A C string never holds a NUL. */
  predicate NulFree(s: string) {
    NUL !in s
  }

  /** The first character of a C string, which is its NUL when it is empty. */
  function C0(s: string): char {
    if s == [] then NUL else s[0]
  }

  lemma AppendAssoc<T>(a: seq<T>, b: seq<T>, c: seq<T>)
    ensures (a + b) + c == a + (b + c)
  {
  }

  predicate IsBlank(c: char) {
    c == ' ' || c == '\t'
  }

  predicate IsDigit(c: char) {
    '0' <= c <= '9'
  }

  // ---------- case-insensitive comparison (mu_c_strcasecmp) ----------

  function Upper(c: char): char {
    if 'a' <= c <= 'z' then c - 'a' + 'A' else c
  }

  function Fold(s: string): (r: string)
    ensures |r| == |s|
    ensures forall i :: 0 <= i < |s| ==> r[i] == Upper(s[i])
  {
    seq(|s|, i requires 0 <= i < |s| => Upper(s[i]))
  }

  predicate EqNoCase(a: string, b: string) {
    Fold(a) == Fold(b)
  }

  /** Whether `name` has no lower-case letter, as every keyword of the tables. */
  predicate IsUpper(name: string) {
    forall i :: 0 <= i < |name| ==> Upper(name[i]) == name[i]
  }

  lemma FoldUpper(name: string)
    requires IsUpper(name)
    ensures Fold(name) == name
  {
  }

  // ---------- decimal numbers ----------

  const ULONG_MAX: nat := 0xFFFF_FFFF_FFFF_FFFF

  /** (size_t) -1: the length of a fetch that asks for the whole text */
  const WHOLE: nat := 0xFFFF_FFFF_FFFF_FFFF

  function Digit(n: nat): (c: char)
    requires n < 10
    ensures IsDigit(c) && c as int - '0' as int == n
  {
    '0' + n as char
  }

  /** `%lu` */
  function Dec(n: nat): (s: string)
    ensures |s| > 0
    ensures forall i :: 0 <= i < |s| ==> IsDigit(s[i])
  {
    if n < 10 then [Digit(n)] else Dec(n / 10) + [Digit(n % 10)]
  }

  /** The number of leading digits of `s`. */
  function DigitSpan(s: string): (n: nat)
    ensures n <= |s|
    ensures forall i :: 0 <= i < n ==> IsDigit(s[i])
    ensures n < |s| ==> !IsDigit(s[n])
  {
    if s == [] || !IsDigit(s[0]) then 0 else 1 + DigitSpan(s[1..])
  }

  function DecValue(s: string): nat
    requires forall i :: 0 <= i < |s| ==> IsDigit(s[i])
  {
    if s == [] then 0
    else
      var last := s[|s| - 1];
      assert IsDigit(last);
      10 * DecValue(s[..|s| - 1]) + (last as int - '0' as int)
  }

  predicate IsSpace(c: char) {
    c == ' ' || '\t' <= c <= '\r'
  }

  function SpaceSpan(s: string): (n: nat)
    ensures n <= |s|
  {
    if s == [] || !IsSpace(s[0]) then 0 else 1 + SpaceSpan(s[1..])
  }

  /** Where the digits of a number start: behind blanks and a sign. */
  function NumberStart(s: string): (n: nat)
    ensures n <= |s|
  {
    var sp := SpaceSpan(s);
    if sp < |s| && (s[sp] == '-' || s[sp] == '+') then sp + 1 else sp
  }

  /** Whether strtoul sets ERANGE. */
  predicate OutOfRange(s: string) {
    var digits := s[NumberStart(s)..];
    DecValue(digits[..DigitSpan(digits)]) > ULONG_MAX
  }

  /** `strtoul (s, &end, 10)`: the value and the offset of the first character
      that was not converted (0 when there is no number at all). */
  function Strtoul(s: string): (r: (nat, nat))
    ensures r.0 <= ULONG_MAX
    ensures r.1 <= |s|
  {
    var sp := SpaceSpan(s);
    var negative := sp < |s| && s[sp] == '-';
    var start := NumberStart(s);
    var n := DigitSpan(s[start..]);
    if n == 0 then (0, 0)
    else
      var v := DecValue(s[start..start + n]);
      if v > ULONG_MAX then (ULONG_MAX, start + n)
      else if negative && v != 0 then (ULONG_MAX + 1 - v, start + n)
      else (v, start + n)
  }

  lemma {:induction false} DecRoundTrip(n: nat)
    ensures DecValue(Dec(n)) == n
  {
    if n >= 10 {
      DecRoundTrip(n / 10);
      var s := Dec(n);
      assert s[..|s| - 1] == Dec(n / 10);
    }
  }

  lemma DigitSpanOf(s: string, rest: string)
    requires forall i :: 0 <= i < |s| ==> IsDigit(s[i])
    requires rest == [] || !IsDigit(rest[0])
    ensures DigitSpan(s + rest) == |s|
  {
    assert forall i :: 0 <= i < |s| ==> IsDigit((s + rest)[i]);
    assert rest != [] ==> !IsDigit((s + rest)[|s|]);
  }

  /** What `%lu` prints, `strtoul` reads back, up to the first other character. */
  lemma StrtoulDec(n: nat, rest: string)
    requires n <= ULONG_MAX
    requires rest == [] || !IsDigit(rest[0])
    ensures Strtoul(Dec(n) + rest) == (n, |Dec(n)|) && !OutOfRange(Dec(n) + rest)
  {
    var d, s := Dec(n), Dec(n) + rest;
    assert s[0] == d[0] && IsDigit(s[0]);
    assert SpaceSpan(s) == 0;
    assert s[0..] == s;
    DigitSpanOf(d, rest);
    assert s[0..|d|] == d && s[..|d|] == d;
    DecRoundTrip(n);
  }
}
