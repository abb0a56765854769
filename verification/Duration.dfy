/**
 Durations of years, months, days and hours: printing and parsing.

 Fields are 64-bit integers.  A number is read without its sign, so its digits must fit the
 largest integer; digits that do not fit are a panic, not an error.
 */
module Duration {

  const MAX_INT: int := 0x7FFF_FFFF_FFFF_FFFF
  const MIN_INT: int := -0x8000_0000_0000_0000

  newtype Int = x: int | MIN_INT <= x <= MAX_INT

  datatype Duration = Duration(hours: Int, days: Int, months: Int, years: Int)

  const ZERO := Duration(0, 0, 0, 0)

  datatype Parsed<T> = Ok(value: T) | Err | Panic

  // ---------------------------------------------------------------------------------------
  // Decimal numbers
  // ---------------------------------------------------------------------------------------

  predicate IsDigit(c: char) {
    '0' <= c <= '9'
  }

  predicate AllDigits(s: string) {
    forall i :: 0 <= i < |s| ==> IsDigit(s[i])
  }

  /** The decimal digits of a number. */
  function Digits(n: nat): string {
    (if n < 10 then "" else Digits(n / 10)) + ['0' + (n % 10) as char]
  }

  /** The number that digits stand for; leading zeros are allowed. */
  function Value(s: string): nat
    requires AllDigits(s)
  {
    if s == "" then 0 else 10 * Value(s[..|s| - 1]) + (s[|s| - 1] - '0') as nat
  }

  lemma DigitChar(d: nat)
    requires d < 10
    ensures IsDigit('0' + d as char) && (('0' + d as char) - '0') as nat == d
  {
  }

  lemma ValueSnoc(s: string, c: char)
    requires AllDigits(s) && IsDigit(c)
    ensures AllDigits(s + [c]) && Value(s + [c]) == 10 * Value(s) + (c - '0') as nat
  {
    assert (s + [c])[..|s|] == s;
  }

  lemma {:induction false} DigitsValue(n: nat)
    ensures Digits(n) != "" && AllDigits(Digits(n)) && Value(Digits(n)) == n
  {
    DigitChar(n % 10);
    if n >= 10 {
      DigitsValue(n / 10);
    }
    ValueSnoc(if n < 10 then "" else Digits(n / 10), '0' + (n % 10) as char);
  }

  function Show(x: int): string {
    if x < 0 then "-" + Digits(-x) else Digits(x)
  }

  // ---------------------------------------------------------------------------------------
  // Printing
  // ---------------------------------------------------------------------------------------

  /** A field that is zero is not printed. */
  function Field(x: Int, unit: char): string {
    if x == 0 then "" else Show(x as int) + [unit]
  }

  function Print(d: Duration): string {
    Field(d.years, 'y') + Field(d.months, 'm') + Field(d.days, 'd') + Field(d.hours, 'h')
  }

  // ---------------------------------------------------------------------------------------
  // Reading a number
  // ---------------------------------------------------------------------------------------

  /** How many digits there are in front. */
  function DigitCount(s: string): (n: nat)
    ensures n <= |s|
  {
    DigitsFrom(s, 0)
  }

  function DigitsFrom(s: string, i: nat): (n: nat)
    requires i <= |s|
    ensures i <= n <= |s|
    decreases |s| - i
  {
    if i == |s| || !IsDigit(s[i]) then i else DigitsFrom(s, i + 1)
  }

  ghost predicate CountsDigits(s: string, i: nat, n: nat) {
    i <= n <= |s| && (forall k :: i <= k < n ==> IsDigit(s[k])) && (n < |s| ==> !IsDigit(s[n]))
  }

  lemma {:induction false} DigitsFromCounts(s: string, i: nat)
    requires i <= |s|
    ensures CountsDigits(s, i, DigitsFrom(s, i))
    decreases |s| - i
  {
    if i < |s| && IsDigit(s[i]) {
      DigitsFromCounts(s, i + 1);
    }
  }

  lemma DigitCountIff(s: string, n: nat)
    ensures CountsDigits(s, 0, n) <==> n == DigitCount(s)
    ensures AllDigits(s[..DigitCount(s)])
  {
    DigitsFromCounts(s, 0);
  }

  function Unsigned(input: string): string {
    if input != "" && input[0] == '-' then input[1..] else input
  }

  function Signed(negative: bool, n: nat): int {
    if negative then -(n as int) else n
  }

  /** A number and what follows it: an optional sign and as many digits as there are. */
  function Next(input: string): Parsed<(Int, string)> {
    if input == "" then Ok((0, ""))
    else
      var unsigned := Unsigned(input);
      var n := DigitCount(unsigned);
      DigitCountIff(unsigned, n);
      if n == 0 then Err
      else if Value(unsigned[..n]) > MAX_INT then Panic
      else Ok((Signed(input[0] == '-', Value(unsigned[..n])) as Int, unsigned[n..]))
  }

  /** Converts digits, or fails if they do not fit. */
  function Atoi(digits: string): Parsed<Int>
    requires AllDigits(digits)
  {
    if Value(digits) > MAX_INT then Err else Ok(Value(digits) as Int)
  }

  method NextNumber(given: string) returns (r: Parsed<(Int, string)>)
    ensures r == Next(given)
  {
    if given == "" {
      return Ok((0, ""));
    }
    var n, negative, input, rest := "", false, given, "";
    if input[0] == '-' {
      negative := true;
      input := input[1..];
    }
    ghost var count := DigitCount(input);
    DigitCountIff(input, count);
    for i := 0 to |input|
      invariant n == input[..i] && i <= count
      invariant rest == ""
    {
      if input[i] < '0' || input[i] > '9' {
        rest := input[i..];
        break;
      }
      n := n + [input[i]];
    }
    assert n == input[..count] && rest == input[count..];
    if n == "" {
      return Err;
    }
    var num := Atoi(n);
    if num.Err? {
      return Panic;
    }
    if negative {
      return Ok((-num.value, rest));
    }
    return Ok((num.value, rest));
  }

  // ---------------------------------------------------------------------------------------
  // Parsing
  // ---------------------------------------------------------------------------------------

  predicate IsSpace(c: char) {
    || '\t' <= c <= '\r' || c == ' ' || c == '\U{0085}' || c == '\U{00A0}' || c == '\U{1680}'
    || '\U{2000}' <= c <= '\U{200A}' || c == '\U{2028}' || c == '\U{2029}' || c == '\U{202F}'
    || c == '\U{205F}' || c == '\U{3000}'
  }

  function TrimLeft(s: string): string {
    if s != "" && IsSpace(s[0]) then TrimLeft(s[1..]) else s
  }

  function TrimRight(s: string): string {
    if s != "" && IsSpace(s[|s| - 1]) then TrimRight(s[..|s| - 1]) else s
  }

  function TrimSpace(s: string): string {
    TrimRight(TrimLeft(s))
  }

  predicate IsUnit(c: char) {
    c in {'y', 'm', 'd', 'h'}
  }

  function Set(d: Duration, unit: char, x: Int): Duration
    requires IsUnit(unit)
  {
    if unit == 'y' then d.(years := x)
    else if unit == 'm' then d.(months := x)
    else if unit == 'd' then d.(days := x)
    else d.(hours := x)
  }

  lemma NextShortens(input: string)
    ensures input != "" && Next(input).Ok? ==> |Next(input).value.1| < |input|
  {
  }

  /** Parses what is left of the text into a duration read so far. */
  function ParseFrom(d: Duration, s: string): Parsed<Duration>
    decreases |s|
  {
    if s == "" then Ok(d)
    else
      NextShortens(s);
      match Next(s)
      case Err => Err
      case Panic => Panic
      case Ok((num, rest)) =>
        if rest == "" || !IsUnit(rest[0]) then Err else ParseFrom(Set(d, rest[0], num), rest[1..])
  }

  function Parse(s: string): Parsed<Duration> {
    ParseFrom(ZERO, TrimSpace(s))
  }

  method ParseDuration(given: string) returns (r: Parsed<Duration>)
    ensures r == Parse(given)
  {
    var d, s := ZERO, TrimSpace(given);
    while s != ""
      invariant ParseFrom(d, s) == Parse(given)
      decreases |s|
    {
      NextShortens(s);
      var next := NextNumber(s);
      if next.Err? {
        return Err;
      }
      if next.Panic? {
        return Panic;
      }
      var num := next.value.0;
      s := next.value.1;
      if s == "" {
        return Err;
      }
      match s[0] {
        case 'y' => d := d.(years := num);
        case 'm' => d := d.(months := num);
        case 'd' => d := d.(days := num);
        case 'h' => d := d.(hours := num);
        case _ => return Err;
      }
      s := s[1..];
    }
    return Ok(d);
  }

  // ---------------------------------------------------------------------------------------
  // What is accepted
  // ---------------------------------------------------------------------------------------

  /** A number with its unit. */
  datatype Token = Token(negative: bool, digits: string, unit: char)

  predicate IsToken(t: Token) {
    t.digits != "" && AllDigits(t.digits) && IsUnit(t.unit)
  }

  predicate Fits(t: Token)
    requires IsToken(t)
  {
    Value(t.digits) <= MAX_INT
  }

  function Written(t: Token): string {
    (if t.negative then "-" else "") + t.digits + [t.unit]
  }

  function WrittenAll(ts: seq<Token>): string {
    if ts == [] then "" else Written(ts[0]) + WrittenAll(ts[1..])
  }

  function Meaning(t: Token): Int
    requires IsToken(t) && Fits(t)
  {
    Signed(t.negative, Value(t.digits)) as Int
  }

  /** The last number for each unit counts. */
  function Collected(d: Duration, ts: seq<Token>): Duration
    requires forall i :: 0 <= i < |ts| ==> IsToken(ts[i]) && Fits(ts[i])
    decreases |ts|
  {
    if ts == [] then d else Collected(Set(d, ts[0].unit, Meaning(ts[0])), ts[1..])
  }

  /** A written token taken apart. */
  lemma WrittenParts(t: Token, rest: string)
    requires IsToken(t)
    ensures var s := Written(t) + rest;
      && s != "" && (s[0] == '-' <==> t.negative)
      && Unsigned(s) == t.digits + ([t.unit] + rest)
  {
    var s := Written(t) + rest;
    if t.negative {
      assert s == "-" + (t.digits + ([t.unit] + rest));
    } else {
      assert s == t.digits + ([t.unit] + rest);
      assert s[0] == t.digits[0];
    }
  }

  lemma CountJoined(digits: string, tail: string)
    requires AllDigits(digits) && tail != "" && !IsDigit(tail[0])
    ensures var s := digits + tail;
      DigitCount(s) == |digits| && s[..|digits|] == digits && s[|digits|..] == tail
  {
    DigitCountIff(digits + tail, |digits|);
  }

  /** Reading a written token gives its value and leaves the rest. */
  lemma NextToken(t: Token, rest: string)
    requires IsToken(t)
    ensures Next(Written(t) + rest) == if Fits(t) then Ok((Meaning(t), [t.unit] + rest)) else Panic
  {
    WrittenParts(t, rest);
    CountJoined(t.digits, [t.unit] + rest);
  }

  lemma ParseToken(d: Duration, t: Token, rest: string)
    requires IsToken(t)
    ensures ParseFrom(d, Written(t) + rest) == if Fits(t) then ParseFrom(Set(d, t.unit, Meaning(t)), rest) else Panic
  {
    NextToken(t, rest);
    assert ([t.unit] + rest)[1..] == rest;
  }

  /** Every list of tokens that fit is accepted, with the meaning of its tokens. */
  lemma {:induction false} AcceptsTokens(d: Duration, ts: seq<Token>)
    requires forall i :: 0 <= i < |ts| ==> IsToken(ts[i]) && Fits(ts[i])
    ensures ParseFrom(d, WrittenAll(ts)) == Ok(Collected(d, ts))
    decreases |ts|
  {
    if ts != [] {
      ParseToken(d, ts[0], WrittenAll(ts[1..]));
      AcceptsTokens(Set(d, ts[0].unit, Meaning(ts[0])), ts[1..]);
    }
  }

  /** Nothing else is accepted. */
  lemma {:induction false} OnlyTokens(d: Duration, s: string) returns (ts: seq<Token>)
    requires ParseFrom(d, s).Ok?
    ensures forall i :: 0 <= i < |ts| ==> IsToken(ts[i]) && Fits(ts[i])
    ensures s == WrittenAll(ts)
    decreases |s|
  {
    if s == "" {
      ts := [];
    } else {
      NextShortens(s);
      var t, rest := FirstToken(s);
      assert s == Written(t) + rest;
      ParseToken(d, t, rest);
      var more := OnlyTokens(Set(d, t.unit, Meaning(t)), rest);
      ts := [t] + more;
      assert ts[1..] == more;
    }
  }

  ghost predicate TokensThatFit(ts: seq<Token>) {
    forall i :: 0 <= i < |ts| ==> IsToken(ts[i]) && Fits(ts[i])
  }

  predicate AllSpaces(s: string) {
    forall i :: 0 <= i < |s| ==> IsSpace(s[i])
  }

  lemma {:induction false} TrimLeftParts(s: string)
    ensures |TrimLeft(s)| <= |s|
    ensures var k := |s| - |TrimLeft(s)|; TrimLeft(s) == s[k..] && AllSpaces(s[..k]) && (k < |s| ==> !IsSpace(s[k]))
  {
    if s != "" && IsSpace(s[0]) {
      TrimLeftParts(s[1..]);
    }
  }

  lemma {:induction false} TrimRightParts(s: string)
    ensures |TrimRight(s)| <= |s|
    ensures var k := |TrimRight(s)|; TrimRight(s) == s[..k] && AllSpaces(s[k..]) && (k > 0 ==> !IsSpace(s[k - 1]))
  {
    if s != "" && IsSpace(s[|s| - 1]) {
      TrimRightParts(s[..|s| - 1]);
    }
  }

  /** Everything outside these `n` characters is a space, and neither end of them is. */
  predicate OnlySpacesAround(s: string, i: nat, n: nat) {
    && i + n <= |s|
    && (forall j :: 0 <= j < |s| && !(i <= j < i + n) ==> IsSpace(s[j]))
    && (n > 0 ==> !IsSpace(s[i]) && !IsSpace(s[i + n - 1]))
  }

  /** `t` is `s` without the spaces at its ends. */
  ghost predicate TrimsTo(s: string, t: string) {
    exists i: nat :: OnlySpacesAround(s, i, |t|) && s[i..i + |t|] == t
  }

  /** Trimming takes away exactly the spaces at both ends. */
  lemma TrimSpaceIff(s: string, t: string)
    ensures TrimsTo(s, t) <==> t == TrimSpace(s)
  {
    TrimLeftParts(s);
    TrimRightParts(TrimLeft(s));
    var k: nat := |s| - |TrimLeft(s)|;
    TrimmedBothWays(s, k, |TrimSpace(s)|);
    if TrimsTo(s, t) {
      var i: nat :| OnlySpacesAround(s, i, |t|) && s[i..i + |t|] == t;
      SameRange(s, i, |t|, k, |TrimSpace(s)|);
    }
  }

  lemma TrimmedBothWays(s: string, k: nat, n: nat)
    requires k + n <= |s| && AllSpaces(s[..k]) && AllSpaces(s[k..][n..])
    requires n > 0 ==> !IsSpace(s[k]) && !IsSpace(s[k..][n - 1])
    ensures OnlySpacesAround(s, k, n) && s[k..k + n] == s[k..][..n]
  {
    assert forall j :: 0 <= j < k ==> s[j] == s[..k][j];
    assert forall j :: k + n <= j < |s| ==> s[j] == s[k..][n..][j - k - n];
  }

  lemma SameRange(s: string, i: nat, n: nat, k: nat, m: nat)
    requires OnlySpacesAround(s, i, n) && OnlySpacesAround(s, k, m)
    ensures n == m && (n > 0 ==> i == k)
  {
  }

  /** What is accepted, after trimming, is exactly the lists of tokens whose numbers fit. */
  lemma AcceptsExactly(s: string)
    ensures TrimsTo(s, TrimSpace(s))
    ensures Parse(s).Ok? <==> exists ts :: TokensThatFit(ts) && TrimSpace(s) == WrittenAll(ts)
    ensures forall ts :: TokensThatFit(ts) && TrimSpace(s) == WrittenAll(ts) ==> Parse(s) == Ok(Collected(ZERO, ts))
  {
    TrimSpaceIff(s, TrimSpace(s));
    if Parse(s).Ok? {
      var ts := OnlyTokens(ZERO, TrimSpace(s));
      assert TokensThatFit(ts);
    }
    forall ts | TokensThatFit(ts) && TrimSpace(s) == WrittenAll(ts) ensures Parse(s) == Ok(Collected(ZERO, ts)) {
      AcceptsTokens(ZERO, ts);
    }
  }

  lemma CutAt(s: string, n: nat)
    requires n < |s|
    ensures s == s[..n] + [s[n]] + s[n + 1..]
  {
  }

  lemma SignedPart(s: string)
    requires s != ""
    ensures s == (if s[0] == '-' then "-" else "") + Unsigned(s)
  {
  }

  lemma Regroup(a: string, b: string, c: string, d: string)
    ensures a + (b + c + d) == a + b + c + d
  {
  }

  lemma FirstToken(s: string) returns (t: Token, rest: string)
    requires s != "" && Next(s).Ok? && Next(s).value.1 != "" && IsUnit(Next(s).value.1[0])
    ensures IsToken(t) && Fits(t) && s == Written(t) + rest
  {
    var unsigned := Unsigned(s);
    var n := DigitCount(unsigned);
    DigitCountIff(unsigned, n);
    t := Token(s[0] == '-', unsigned[..n], unsigned[n]);
    rest := unsigned[n + 1..];
    CutAt(unsigned, n);
    SignedPart(s);
    Regroup(if t.negative then "-" else "", t.digits, [t.unit], rest);
  }

  // ---------------------------------------------------------------------------------------
  // Round trips
  // ---------------------------------------------------------------------------------------

  /** The smallest integer has no positive counterpart. */
  predicate Printable(x: Int) {
    x as int > MIN_INT
  }

  function TokenOf(x: Int, unit: char): Token {
    Token(x < 0, Digits(if x < 0 then -(x as int) else x as int), unit)
  }

  lemma FieldIsToken(x: Int, unit: char)
    requires IsUnit(unit) && x != 0
    ensures var t := TokenOf(x, unit); IsToken(t) && Field(x, unit) == Written(t)
    ensures var t := TokenOf(x, unit); (Fits(t) <==> Printable(x)) && (Fits(t) ==> Meaning(t) == x)
  {
    DigitsValue(if x < 0 then -(x as int) else x as int);
    assert "" + Digits(if x < 0 then -(x as int) else x as int) == Digits(if x < 0 then -(x as int) else x as int);
  }

  lemma ParseField(d: Duration, x: Int, unit: char, rest: string)
    requires IsUnit(unit)
    ensures ParseFrom(d, Field(x, unit) + rest) ==
      if x == 0 then ParseFrom(d, rest)
      else if Printable(x) then ParseFrom(Set(d, unit, x), rest) else Panic
  {
    if x == 0 {
      assert Field(x, unit) + rest == rest;
    } else {
      FieldIsToken(x, unit);
      ParseToken(d, TokenOf(x, unit), rest);
    }
  }

  lemma {:induction false} TrimKeeps(s: string)
    requires s != "" ==> !IsSpace(s[0]) && !IsSpace(s[|s| - 1])
    ensures TrimSpace(s) == s
  {
  }

  lemma FieldEnds(x: Int, unit: char)
    requires IsUnit(unit) && x != 0
    ensures var f := Field(x, unit); f != "" && !IsSpace(f[0]) && f[|f| - 1] == unit
  {
    DigitsValue(if x < 0 then -(x as int) else x as int);
  }

  lemma EndsJoin(a: string, b: string)
    requires a != "" ==> !IsSpace(a[0]) && !IsSpace(a[|a| - 1])
    requires b != "" ==> !IsSpace(b[0]) && !IsSpace(b[|b| - 1])
    ensures a + b != "" ==> !IsSpace((a + b)[0]) && !IsSpace((a + b)[|a + b| - 1])
  {
  }

  lemma PrintEnds(d: Duration)
    ensures var s := Print(d); s != "" ==> !IsSpace(s[0]) && !IsSpace(s[|s| - 1])
  {
    var y, m, days, h := Field(d.years, 'y'), Field(d.months, 'm'), Field(d.days, 'd'), Field(d.hours, 'h');
    if d.years != 0 { FieldEnds(d.years, 'y'); }
    if d.months != 0 { FieldEnds(d.months, 'm'); }
    if d.days != 0 { FieldEnds(d.days, 'd'); }
    if d.hours != 0 { FieldEnds(d.hours, 'h'); }
    EndsJoin(y, m);
    EndsJoin(y + m, days);
    EndsJoin(y + m + days, h);
  }

  lemma PrintNested(d: Duration)
    ensures Print(d) == Field(d.years, 'y') + PrintMonths(d)
  {
  }

  function PrintMonths(d: Duration): string {
    Field(d.months, 'm') + PrintDays(d)
  }

  function PrintDays(d: Duration): string {
    Field(d.days, 'd') + (Field(d.hours, 'h') + "")
  }

  lemma ParseDays(e: Duration, d: Duration)
    requires e.days == 0 && e.hours == 0
    ensures ParseFrom(e, PrintDays(d)) ==
      if Printable(d.days) && Printable(d.hours) then Ok(e.(days := d.days, hours := d.hours)) else Panic
  {
    ParseField(e, d.days, 'd', Field(d.hours, 'h') + "");
    ParseField(e.(days := d.days), d.hours, 'h', "");
  }

  lemma ParseMonths(e: Duration, d: Duration)
    requires e.months == 0 && e.days == 0 && e.hours == 0
    ensures ParseFrom(e, PrintMonths(d)) ==
      if Printable(d.months) && Printable(d.days) && Printable(d.hours) then Ok(d.(years := e.years)) else Panic
  {
    ParseField(e, d.months, 'm', PrintDays(d));
    ParseDays(e.(months := d.months), d);
  }

  /** Parsing the printed form gives the duration back exactly when no field is the smallest integer;
      otherwise parsing panics. */
  lemma RoundTrip(d: Duration)
    ensures Parse(Print(d)) == if AllPrintable(d) then Ok(d) else Panic
  {
    PrintEnds(d);
    TrimKeeps(Print(d));
    PrintNested(d);
    ParseField(ZERO, d.years, 'y', PrintMonths(d));
    ParseMonths(ZERO.(years := d.years), d);
  }

  /** The smallest integer as an example. */
  lemma SmallestPanics()
    ensures Parse(Print(ZERO.(days := MIN_INT as Int))) == Panic
  {
    RoundTrip(ZERO.(days := MIN_INT as Int));
  }

  predicate AllPrintable(d: Duration) {
    Printable(d.years) && Printable(d.months) && Printable(d.days) && Printable(d.hours)
  }

  lemma {:induction false} ParsedPrintable(d: Duration, s: string)
    requires AllPrintable(d) && ParseFrom(d, s).Ok?
    ensures AllPrintable(ParseFrom(d, s).value)
    decreases |s|
  {
    if s != "" {
      NextShortens(s);
      var next := Next(s).value;
      ParsedPrintable(Set(d, next.1[0], next.0), next.1[1..]);
    }
  }

  /** Whatever is accepted, printing and parsing again changes nothing. */
  lemma AcceptedIsStable(s: string)
    requires Parse(s).Ok?
    ensures Parse(Print(Parse(s).value)) == Parse(s)
  {
    ParsedPrintable(ZERO, TrimSpace(s));
    RoundTrip(Parse(s).value);
  }
}
