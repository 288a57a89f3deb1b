/** The input rules of the railway planner (Ex2/RailWayPlanner.c): the lookup of
    a connection symbol, the line of symbols, the numeric first and second
    lines and one rail line "start,end,length,price".

    Strings are C strings seen up to their terminator, so the texts handed to
    these members hold no NUL; the one exception is the raw line buffer of
    `ParseSymbols`, which is modelled byte for byte. */
module RailwayInput {
  import opened Wrappers

  const INVALID_VALUE: int := -1
  const SEPARATOR: char := ','
  const NUL: char := '\0'
  const INT_MAX: int := 0x7FFF_FFFF
  const EXIT_SUCCESS: int := 0
  const EXIT_FAILURE: int := 1

  /** One rail (the C `road`): its length and price, the symbols of its two
      ends and the index in the symbol line of its start symbol. */
  datatype Road = Road(length: int, price: int, startPart: char, endPart: char, startPartIndex: int)

  // ---------------------------------------------------------------------
  // checkValidSymbol

  /** The index of the first occurrence of `symbol` in `s`, or -1. */
  function FirstIndex(symbol: char, s: seq<char>): (r: int)
    ensures -1 <= r < |s|
    ensures r == -1 <==> symbol !in s
    ensures r != -1 ==> s[r] == symbol && symbol !in s[..r]
  {
    if s == [] then -1
    else if s[0] == symbol then 0
    else
      var i := FirstIndex(symbol, s[1..]);
      assert s[1..][..if i == -1 then 0 else i] == s[1..if i == -1 then 1 else i + 1];
      if i == -1 then -1 else i + 1
  }

  /** Scans `validSymbols` from the left and stops at the first match. */
  method CheckValidSymbol(symbol: char, validSymbols: seq<char>) returns (r: int)
    ensures r == FirstIndex(symbol, validSymbols)
    ensures r == INVALID_VALUE <==> symbol !in validSymbols
  {
    var listLength := |validSymbols|;
    var i := 0;
    while i < listLength
      invariant 0 <= i <= listLength
      invariant symbol !in validSymbols[..i]
    {
      if symbol == validSymbols[i] {
        return i;
      }
      assert validSymbols[..i + 1] == validSymbols[..i] + [validSymbols[i]];
      i := i + 1;
    }
    assert validSymbols[..i] == validSymbols;
    return INVALID_VALUE;
  }

  // ---------------------------------------------------------------------
  // parseSymbols

  /** The alternation rule of the symbol line, checked on the first
      `2 * n - 1` bytes of the line buffer: odd positions hold the separator,
      even positions anything else. */
  ghost predicate Alternates(buffer: seq<char>, n: int)
    requires 2 * n - 1 <= |buffer|
  {
    forall i :: 0 <= i < 2 * n - 1 ==> (buffer[i] == SEPARATOR <==> i % 2 == 1)
  }

  /** The validation loop of parseSymbols. `buffer` is the line buffer after
      the newline is cut: the text, its terminator and whatever bytes follow
      it; only the first `2 * numOfConnections - 1` bytes are read. On success
      `symbols` holds the even-position bytes followed by a terminator. */
  method ParseSymbols(buffer: seq<char>, numOfConnections: int) returns (ok: bool, symbols: array<char>)
    requires numOfConnections >= 1
    requires 2 * numOfConnections - 1 <= |buffer|
    ensures fresh(symbols) && symbols.Length == numOfConnections + 1
    ensures ok <==> Alternates(buffer, numOfConnections)
    ensures ok ==> symbols[numOfConnections] == NUL
    ensures ok ==> forall k :: 0 <= k < numOfConnections ==> symbols[k] == buffer[2 * k]
  {
    var validLength := numOfConnections * 2 - 1;
    var arrIndex := 0;
    ok := true;
    symbols := new char[numOfConnections + 1](_ => NUL);
    var i := 0;
    while i < validLength
      invariant 0 <= i <= validLength
      invariant arrIndex == (i + 1) / 2
      invariant forall j :: 0 <= j < i ==> (buffer[j] == SEPARATOR <==> j % 2 == 1)
      invariant forall k :: 0 <= k < arrIndex ==> symbols[k] == buffer[2 * k]
    {
      if i % 2 == 1 {
        if buffer[i] != SEPARATOR {
          ok := false;
          break;
        }
      } else {
        if buffer[i] == SEPARATOR {
          ok := false;
          break;
        }
        arrIndex := arrIndex + 1;
        symbols[arrIndex - 1] := buffer[i];
      }
      i := i + 1;
    }
    if ok {
      symbols[arrIndex] := NUL;
    }
  }

  /** The symbols joined by separators: the line a well-formed input holds. */
  function Joined(syms: seq<char>): (line: seq<char>)
    ensures |syms| > 0 ==> |line| == 2 * |syms| - 1
  {
    if |syms| <= 1 then syms else [syms[0], SEPARATOR] + Joined(syms[1..])
  }

  /** The even positions of a joined line are the symbols, the odd ones the
      separators. */
  lemma {:induction false} JoinedAt(syms: seq<char>, i: int)
    requires 0 <= i < 2 * |syms| - 1
    ensures Joined(syms)[i] == if i % 2 == 0 then syms[i / 2] else SEPARATOR
  {
    if |syms| > 1 && i >= 2 {
      JoinedAt(syms[1..], i - 2);
      assert Joined(syms)[i] == Joined(syms[1..])[i - 2];
    }
  }

  /** Round trip: a line of separator-free symbols joined by separators is
      accepted, whatever follows it in the buffer, and gives the symbols
      back. */
  lemma JoinedAccepted(syms: seq<char>, rest: seq<char>)
    requires |syms| >= 1 && SEPARATOR !in syms
    ensures Alternates(Joined(syms) + rest, |syms|)
    ensures forall k :: 0 <= k < |syms| ==> (Joined(syms) + rest)[2 * k] == syms[k]
  {
    JoinedSeparators(syms, rest);
    JoinedSymbols(syms, rest);
  }

  lemma JoinedSeparators(syms: seq<char>, rest: seq<char>)
    requires |syms| >= 1 && SEPARATOR !in syms
    ensures Alternates(Joined(syms) + rest, |syms|)
  {
    var j := Joined(syms);
    var b := j + rest;
    forall i | 0 <= i < 2 * |syms| - 1
      ensures b[i] == SEPARATOR <==> i % 2 == 1
    {
      JoinedAt(syms, i);
      assert b[i] == j[i];
    }
  }

  lemma JoinedSymbols(syms: seq<char>, rest: seq<char>)
    requires |syms| >= 1
    ensures forall k :: 0 <= k < |syms| ==> (Joined(syms) + rest)[2 * k] == syms[k]
  {
    var j := Joined(syms);
    forall k | 0 <= k < |syms|
      ensures (j + rest)[2 * k] == syms[k]
    {
      JoinedEven(syms, k);
    }
  }

  /** The symbol `k` of a joined line sits at position `2 * k`. */
  lemma {:induction false} JoinedEven(syms: seq<char>, k: int)
    requires 0 <= k < |syms|
    ensures 2 * k < |Joined(syms)| && Joined(syms)[2 * k] == syms[k]
  {
    if k > 0 {
      JoinedEven(syms[1..], k - 1);
      assert Joined(syms) == [syms[0], SEPARATOR] + Joined(syms[1..]);
    }
  }

  /** A line one symbol short and ending in a separator ("a," for two
      connections) passes the alternation rule: the last even position reads
      the terminator, which is not a separator. */
  lemma ShortLineAccepted(a: char, rest: seq<char>)
    requires a != SEPARATOR
    ensures Alternates([a, SEPARATOR] + [NUL] + rest, 2)
    ensures ([a, SEPARATOR] + [NUL] + rest)[2] == NUL
  {
  }

  /** The intended rule: the text of the line (up to its terminator) is
      exactly `n` symbols joined by separators, none of them a terminator. */
  ghost predicate WellFormedSymbols(text: seq<char>, n: int)
  {
    n >= 1 && |text| == 2 * n - 1 && NUL !in text &&
    forall i :: 0 <= i < |text| ==> (text[i] == SEPARATOR <==> i % 2 == 1)
  }

  /** The text of a line buffer: everything before the first terminator. */
  function LineText(buffer: seq<char>): (text: seq<char>)
    ensures |text| <= |buffer| && text == buffer[..|text|] && NUL !in text
    ensures |text| < |buffer| ==> buffer[|text|] == NUL
  {
    if buffer == [] || buffer[0] == NUL then []
    else [buffer[0]] + LineText(buffer[1..])
  }

  /** The corrected check: the alternation rule on a buffer whose text is
      long enough, which adds that no even position before `2 * n - 1` is the
      terminator. */
  predicate SymbolsAccepted(buffer: seq<char>, n: int)
    requires n >= 1 && 2 * n - 1 <= |buffer|
  {
    forall i :: 0 <= i < 2 * n - 1 ==> buffer[i] != NUL && (buffer[i] == SEPARATOR <==> i % 2 == 1)
  }

  /** The corrected check accepts a buffer exactly when the text starts with
      `n` well-formed symbols, and never the short line that the as-written
      loop lets through. */
  lemma SymbolsAcceptedMeansWellFormed(buffer: seq<char>, n: int)
    requires n >= 1 && 2 * n - 1 <= |buffer|
    ensures SymbolsAccepted(buffer, n) <==> 2 * n - 1 <= |LineText(buffer)| && WellFormedSymbols(LineText(buffer)[..2 * n - 1], n)
  {
    var text := LineText(buffer);
    if SymbolsAccepted(buffer, n) {
      assert text[..2 * n - 1] == buffer[..2 * n - 1];
    }
    if 2 * n - 1 <= |text| && WellFormedSymbols(text[..2 * n - 1], n) {
      forall i | 0 <= i < 2 * n - 1
        ensures buffer[i] != NUL && (buffer[i] == SEPARATOR <==> i % 2 == 1)
      {
        assert text[..2 * n - 1][i] == buffer[i];
      }
    }
  }

  /** The corrected rule accepts what the as-written rule accepts, less the
      lines whose text is too short. */
  lemma ShortLineRejected(a: char, rest: seq<char>)
    requires a != SEPARATOR && a != NUL
    ensures !SymbolsAccepted([a, SEPARATOR] + [NUL] + rest, 2)
  {
    assert ([a, SEPARATOR] + [NUL] + rest)[2] == NUL;
  }

  // ---------------------------------------------------------------------
  // strtol in base 10

  /** The white space that strtol skips (C isspace). */
  predicate IsSpace(c: char)
  {
    c == ' ' || c == '\t' || c == '\n' || c == '\U{000B}' || c == '\U{000C}' || c == '\r'
  }

  predicate IsDigit(c: char)
  {
    '0' <= c <= '9'
  }

  /** Number of leading characters of `s` satisfying the class. */
  function SpaceCount(s: seq<char>): (n: nat)
    ensures n <= |s| && forall i :: 0 <= i < n ==> IsSpace(s[i])
    ensures n < |s| ==> !IsSpace(s[n])
  {
    if s == [] || !IsSpace(s[0]) then 0 else 1 + SpaceCount(s[1..])
  }

  function DigitCount(s: seq<char>): (n: nat)
    ensures n <= |s| && forall i :: 0 <= i < n ==> IsDigit(s[i])
    ensures n < |s| ==> !IsDigit(s[n])
  {
    if s == [] || !IsDigit(s[0]) then 0 else 1 + DigitCount(s[1..])
  }

  /** The value of a run of decimal digits. */
  function DigitsValue(d: seq<char>): (v: nat)
    requires forall i :: 0 <= i < |d| ==> IsDigit(d[i])
  {
    if d == [] then 0 else 10 * DigitsValue(d[..|d| - 1]) + DigitValue(d[|d| - 1])
  }

  function DigitValue(c: char): nat
    requires IsDigit(c)
  {
    c as int - '0' as int
  }

  /** What strtol returns: the value and the text after the number. */
  datatype Parsed = Parsed(value: int, rest: seq<char>)

  /** strtol(s, &end, 10) without the clamp at LONG_MIN/LONG_MAX: white space,
      an optional sign, a run of digits. Without any digit the value is 0 and
      the rest is the whole text. */
  function StrToL(s: seq<char>): Parsed
  {
    var t := s[SpaceCount(s)..];
    match SignedNumber(t)
    case None => Parsed(0, s)
    case Some(q) => q
  }

  /** An optional sign and a run of digits at the start of `t`. */
  function SignedNumber(t: seq<char>): Option<Parsed>
  {
    if |t| > 0 && t[0] == '-' then
      match Unsigned(t[1..])
      case None => None
      case Some(q) => Some(Parsed(-q.value, q.rest))
    else if |t| > 0 && t[0] == '+' then
      match Unsigned(t[1..])
      case None => None
      case Some(q) => Some(q)
    else Unsigned(t)
  }

  /** A run of at least one digit at the start of `u`, and what follows it. */
  function Unsigned(u: seq<char>): Option<Parsed>
  {
    var k := DigitCount(u);
    if k == 0 then None else Some(Parsed(DigitsValue(u[..k]), u[k..]))
  }

  /** The decimal text of a natural number. */
  function Decimal(n: nat): (d: seq<char>)
    ensures |d| > 0 && forall i :: 0 <= i < |d| ==> IsDigit(d[i])
  {
    if n < 10 then [('0' as int + n) as char]
    else Decimal(n / 10) + [('0' as int + n % 10) as char]
  }

  lemma {:induction false} DecimalValue(n: nat)
    ensures DigitsValue(Decimal(n)) == n
  {
    if n >= 10 {
      DecimalValue(n / 10);
      var d := Decimal(n);
      assert d[..|d| - 1] == Decimal(n / 10);
    }
  }

  lemma DigitCountAll(d: seq<char>)
    requires forall i :: 0 <= i < |d| ==> IsDigit(d[i])
    ensures DigitCount(d) == |d|
  {
  }

  /** strtol reads back the decimal text of a number, with or without a
      sign in front. */
  lemma StrToLDecimal(n: nat, sign: seq<char>)
    requires sign == [] || sign == ['-'] || sign == ['+']
    ensures StrToL(sign + Decimal(n)) == Parsed(if sign == ['-'] then -(n as int) else n, [])
  {
    StrToLDigits(sign, Decimal(n));
    DecimalValue(n);
  }

  /** strtol reads a whole run of digits, after an optional sign. */
  lemma StrToLDigits(sign: seq<char>, d: seq<char>)
    requires sign == [] || sign == ['-'] || sign == ['+']
    requires d != [] && forall i :: 0 <= i < |d| ==> IsDigit(d[i])
    ensures StrToL(sign + d) == Parsed(if sign == ['-'] then -(DigitsValue(d) as int) else DigitsValue(d), [])
  {
    if sign == [] {
      assert sign + d == d;
      UnsignedRead(d);
    } else if sign == ['-'] {
      SignRead('-', d);
    } else {
      SignRead('+', d);
    }
  }

  /** A run of digits with nothing in front is read as it is. */
  lemma UnsignedRead(d: seq<char>)
    requires d != [] && forall i :: 0 <= i < |d| ==> IsDigit(d[i])
    ensures StrToL(d) == Parsed(DigitsValue(d), [])
  {
    UnsignedDigits(d);
    NoSpaceAhead(d);
    assert d[0] != '-' && d[0] != '+';
    assert SignedNumber(d) == Unsigned(d);
  }

  /** A sign followed by a run of digits is read with that sign. */
  lemma SignRead(c: char, d: seq<char>)
    requires c == '-' || c == '+'
    requires d != [] && forall i :: 0 <= i < |d| ==> IsDigit(d[i])
    ensures StrToL([c] + d) == Parsed(if c == '-' then -(DigitsValue(d) as int) else DigitsValue(d), [])
  {
    NoSpaceAhead([c] + d);
    SignedOf(c, d);
    UnsignedDigits(d);
  }

  /** A sign in front of `d` applies to what `d` reads as. */
  lemma SignedOf(c: char, d: seq<char>)
    requires c == '-' || c == '+'
    ensures SignedNumber([c] + d) ==
      match Unsigned(d)
      case None => None
      case Some(q) => Some(if c == '-' then Parsed(-q.value, q.rest) else q)
  {
    HeadTail(c, d);
  }

  lemma HeadTail<T>(c: T, d: seq<T>)
    ensures |[c] + d| > 0 && ([c] + d)[0] == c && ([c] + d)[1..] == d
  {
  }

  lemma NoSpaceAhead(s: seq<char>)
    requires s != [] && !IsSpace(s[0])
    ensures s[SpaceCount(s)..] == s
  {
  }

  lemma UnsignedDigits(d: seq<char>)
    requires d != [] && forall i :: 0 <= i < |d| ==> IsDigit(d[i])
    ensures Unsigned(d) == Some(Parsed(DigitsValue(d), []))
  {
    DigitCountAll(d);
    assert d[..|d|] == d;
  }

  // ---------------------------------------------------------------------
  // checkLengthAndConnections and the second line

  /** `line` is white space, an optional sign and a non-empty run of digits,
      and its value is not negative ("-0" is allowed). */
  ghost predicate NumberParts(line: seq<char>, sp: seq<char>, sign: seq<char>, d: seq<char>)
  {
    && line == sp + sign + d
    && (forall i :: 0 <= i < |sp| ==> IsSpace(sp[i]))
    && (sign == [] || sign == ['-'] || sign == ['+'])
    && d != [] && (forall i :: 0 <= i < |d| ==> IsDigit(d[i]))
    && (sign == ['-'] ==> DigitsValue(d) == 0)
  }

  ghost predicate IsNumberText(line: seq<char>)
  {
    exists sp, sign, d :: NumberParts(line, sp, sign, d)
  }

  /** The rule of the first two lines: the whole text is a number (after
      optional white space and sign) and it is not negative. The empty line
      also passes, since strtol then stops at the terminator at once. */
  function CheckLengthAndConnections(line: seq<char>): (r: int)
    ensures r == EXIT_SUCCESS || r == EXIT_FAILURE
    ensures r == EXIT_SUCCESS <==> line == [] || IsNumberText(line)
  {
    StrToLWhole(line);
    var p := StrToL(line);
    if |p.rest| != 0 then EXIT_FAILURE
    else if 0 > p.value then EXIT_FAILURE
    else EXIT_SUCCESS
  }

  /** strtol consumes the whole text with a value that is not negative
      exactly when the text is empty or a non-negative number. */
  lemma StrToLWhole(line: seq<char>)
    ensures (StrToL(line).rest == [] && StrToL(line).value >= 0) <==> line == [] || IsNumberText(line)
  {
    if line != [] && StrToL(line).rest == [] && StrToL(line).value >= 0 {
      WholeIsNumber(line);
    }
    if IsNumberText(line) {
      var sp, sign, d :| NumberParts(line, sp, sign, d);
      NumberIsWhole(line, sp, sign, d);
    }
  }

  /** A non-empty text strtol reads to its end, with a value that is not
      negative, splits into blanks, a sign and digits. */
  lemma WholeIsNumber(line: seq<char>)
    requires line != [] && StrToL(line).rest == [] && StrToL(line).value >= 0
    ensures IsNumberText(line)
  {
    var n := SpaceCount(line);
    var sp, t := line[..n], line[n..];
    assert line == sp + t;
    assert SignedNumber(t).Some? && SignedNumber(t).value == StrToL(line);
    var sign, d := SignedWhole(t);
    Regroup(line, sp, t, sign, d);
    assert NumberParts(line, sp, sign, d);
  }

  lemma Regroup<T>(line: seq<T>, a: seq<T>, t: seq<T>, b: seq<T>, c: seq<T>)
    requires line == a + t && t == b + c
    ensures line == a + b + c
  {
  }

  /** A sign and digits read to the end with a value that is not negative. */
  lemma SignedWhole(t: seq<char>) returns (sign: seq<char>, d: seq<char>)
    requires SignedNumber(t).Some? && SignedNumber(t).value.rest == [] && SignedNumber(t).value.value >= 0
    ensures t == sign + d && (sign == [] || sign == ['-'] || sign == ['+'])
    ensures d != [] && forall i :: 0 <= i < |d| ==> IsDigit(d[i])
    ensures sign == ['-'] ==> DigitsValue(d) == 0
  {
    if |t| > 0 && (t[0] == '-' || t[0] == '+') {
      sign, d := [t[0]], t[1..];
    } else {
      sign, d := [], t;
    }
    assert t == sign + d;
    UnsignedWhole(d);
  }

  /** A run of digits read to the end is the whole text, with its value. */
  lemma UnsignedWhole(u: seq<char>)
    requires Unsigned(u).Some? && Unsigned(u).value.rest == []
    ensures u != [] && forall i :: 0 <= i < |u| ==> IsDigit(u[i])
    ensures Unsigned(u).value.value == DigitsValue(u)
  {
    var k := DigitCount(u);
    assert u[k..] == [];
    assert u[..k] == u;
  }

  /** Blanks, a sign and digits of a non-negative value are read to the end. */
  lemma NumberIsWhole(line: seq<char>, sp: seq<char>, sign: seq<char>, d: seq<char>)
    requires NumberParts(line, sp, sign, d)
    ensures StrToL(line).rest == [] && StrToL(line).value >= 0
  {
    var t := sign + d;
    StrToLDigits(sign, d);
    assert t[0] == '-' || t[0] == '+' || IsDigit(t[0]);
    NoSpaceAhead(t);
    SpacesAhead(sp, t);
    assert line == sp + t;
  }

  /** strtol skips the blanks in front of a text that starts with no blank. */
  lemma {:induction false} SpacesAhead(sp: seq<char>, t: seq<char>)
    requires forall i :: 0 <= i < |sp| ==> IsSpace(sp[i])
    requires t != [] && !IsSpace(t[0])
    ensures SpaceCount(sp + t) == |sp| && (sp + t)[|sp|..] == t
  {
    if sp != [] {
      assert (sp + t)[1..] == sp[1..] + t;
      SpacesAhead(sp[1..], t);
    }
  }

  /** The decimal text of any natural number passes; its negation (other
      than "-0") does not. */
  lemma CheckAcceptsDecimal(n: nat)
    ensures CheckLengthAndConnections(Decimal(n)) == EXIT_SUCCESS
    ensures n > 0 ==> CheckLengthAndConnections(['-'] + Decimal(n)) == EXIT_FAILURE
  {
    StrToLDecimal(n, []);
    assert [] + Decimal(n) == Decimal(n);
    StrToLDecimal(n, ['-']);
  }

  /** Text left after the number fails the rule. */
  lemma CheckRejectsTrailing(n: nat, tail: seq<char>)
    requires tail != [] && !IsDigit(tail[0])
    ensures CheckLengthAndConnections(Decimal(n) + tail) == EXIT_FAILURE
  {
    var s := Decimal(n) + tail;
    var d := Decimal(n);
    assert SpaceCount(s) == 0;
    assert s[0..] == s;
    assert DigitCount(s) == |d| by {
      DigitCountAll(d);
      DigitCountPrefix(d, tail);
    }
    assert s[|d|..] == tail;
  }

  lemma {:induction false} DigitCountPrefix(d: seq<char>, tail: seq<char>)
    requires forall i :: 0 <= i < |d| ==> IsDigit(d[i])
    requires tail != [] && !IsDigit(tail[0])
    ensures DigitCount(d + tail) == |d|
  {
    if d != [] {
      assert (d + tail)[1..] == d[1..] + tail;
      DigitCountPrefix(d[1..], tail);
    }
  }

  /** An empty line passes: strtol reads no digit, the value is 0 and the
      rest is the (empty) whole text. */
  lemma CheckAcceptsEmpty()
    ensures CheckLengthAndConnections([]) == EXIT_SUCCESS
  {
  }

  /** parseSecondLine: the number of connections must pass the rule above and
      must not be 0. */
  function ParseSecondLine(line: seq<char>): (r: Option<int>)
    ensures r.Some? ==> r.value > 0 && StrToL(line) == Parsed(r.value, [])
    ensures r.None? ==> CheckLengthAndConnections(line) == EXIT_FAILURE || StrToL(line).value == 0
  {
    if CheckLengthAndConnections(line) == EXIT_FAILURE then None
    else
      var number := StrToL(line).value;
      if number == 0 then None else Some(number)
  }

  /** The decimal text of a positive count gives that count back; "0" is
      refused. */
  lemma SecondLineDecimal(n: nat)
    ensures ParseSecondLine(Decimal(n)) == if n == 0 then None else Some(n)
  {
    StrToLDecimal(n, []);
    assert [] + Decimal(n) == Decimal(n);
  }

  // ---------------------------------------------------------------------
  // checkRoadInput

  /** Length of the leading run of non-separator characters. */
  function FieldLength(s: seq<char>): (n: nat)
    ensures n <= |s| && SEPARATOR !in s[..n]
    ensures n < |s| ==> s[n] == SEPARATOR
  {
    if s == [] || s[0] == SEPARATOR then 0
    else
      var n := FieldLength(s[1..]);
      assert s[..n + 1] == [s[0]] + s[1..][..n];
      n + 1
  }

  /** The tokens strtok(line, ",") hands out one by one: the maximal runs of
      non-separator characters. Empty fields are skipped. */
  function Tokens(s: seq<char>): (t: seq<seq<char>>)
    ensures forall i :: 0 <= i < |t| ==> t[i] != [] && SEPARATOR !in t[i]
    decreases |s|
  {
    if s == [] then []
    else if s[0] == SEPARATOR then Tokens(s[1..])
    else
      var n := FieldLength(s);
      [s[..n]] + Tokens(s[n..])
  }

  /** Fields joined by separators. */
  function JoinFields(fields: seq<seq<char>>): seq<char>
  {
    if |fields| == 0 then []
    else if |fields| == 1 then fields[0]
    else fields[0] + [SEPARATOR] + JoinFields(fields[1..])
  }

  lemma {:induction false} FieldLengthOf(f: seq<char>, rest: seq<char>)
    requires SEPARATOR !in f
    requires rest == [] || rest[0] == SEPARATOR
    ensures FieldLength(f + rest) == |f|
  {
    if f != [] {
      assert (f + rest)[1..] == f[1..] + rest;
      FieldLengthOf(f[1..], rest);
    }
  }

  /** strtok gives back the fields of a line built from non-empty,
      separator-free fields. */
  lemma {:induction false} TokensOfJoin(fields: seq<seq<char>>)
    requires forall i :: 0 <= i < |fields| ==> fields[i] != [] && SEPARATOR !in fields[i]
    ensures Tokens(JoinFields(fields)) == fields
  {
    if |fields| == 1 {
      FieldLengthOf(fields[0], []);
      assert fields[0] + [] == fields[0];
      assert fields[0][|fields[0]|..] == [];
    } else if |fields| > 1 {
      var f := fields[0];
      var rest := [SEPARATOR] + JoinFields(fields[1..]);
      var s := JoinFields(fields);
      assert s == f + rest;
      FieldLengthOf(f, rest);
      assert s[..|f|] == f;
      assert s[|f|..] == rest;
      assert rest[1..] == JoinFields(fields[1..]);
      TokensOfJoin(fields[1..]);
      assert Tokens(rest) == fields[1..];
      assert fields == [f] + fields[1..];
    }
  }

  /** Empty fields vanish: doubled, leading or trailing separators leave the
      tokens as they are. */
  lemma TokensSkipEmpty(s: seq<char>)
    ensures Tokens([SEPARATOR] + s) == Tokens(s)
  {
    assert ([SEPARATOR] + s)[1..] == s;
  }

  /** Rule of the two symbol fields: one character, found in the symbols. */
  predicate SymbolField(f: seq<char>, symbols: seq<char>)
  {
    |f| == 1 && f[0] in symbols
  }

  /** Rule of the length and price fields: the whole field is a number in
      (0, INT_MAX]. */
  predicate NumberField(f: seq<char>)
  {
    var p := StrToL(f);
    |p.rest| == 0 && 0 < p.value <= INT_MAX
  }

  predicate RoadFieldsValid(t: seq<seq<char>>, symbols: seq<char>)
  {
    |t| == 4 && SymbolField(t[0], symbols) && SymbolField(t[1], symbols) &&
    NumberField(t[2]) && NumberField(t[3])
  }

  /** The rail a valid line describes. */
  function RoadOf(t: seq<seq<char>>, symbols: seq<char>): Road
    requires RoadFieldsValid(t, symbols)
  {
    Road(StrToL(t[2]).value, StrToL(t[3]).value, t[0][0], t[1][0], FirstIndex(t[0][0], symbols))
  }

  /** A rail is valid for a symbol line when both ends are symbols, its start
      index is the first occurrence of its start symbol, and its length and
      price lie in (0, INT_MAX]. */
  predicate ValidRoad(r: Road, symbols: seq<char>)
  {
    r.startPart in symbols && r.endPart in symbols &&
    r.startPartIndex == FirstIndex(r.startPart, symbols) &&
    0 < r.length <= INT_MAX && 0 < r.price <= INT_MAX
  }

  /** The strtok loop of checkRoadInput. `None` is the error exit (the
      offending line is reported); otherwise the parsed rail. */
  method CheckRoadInput(line: seq<char>, symbols: seq<char>) returns (r: Option<Road>)
    ensures r.Some? <==> RoadFieldsValid(Tokens(line), symbols)
    ensures r.Some? ==> r.value == RoadOf(Tokens(line), symbols) && ValidRoad(r.value, symbols)
  {
    var chunks := Tokens(line);
    var temp := Road(0, 0, NUL, NUL, 0);
    var flag := true;
    var counter := 0;
    while counter < |chunks|
      invariant 0 <= counter <= |chunks|
      invariant counter >= 1 ==> SymbolField(chunks[0], symbols) && temp.startPart == chunks[0][0] && temp.startPartIndex == FirstIndex(chunks[0][0], symbols)
      invariant counter >= 2 ==> SymbolField(chunks[1], symbols) && temp.endPart == chunks[1][0]
      invariant counter >= 3 ==> NumberField(chunks[2]) && temp.length == StrToL(chunks[2]).value
      invariant counter >= 4 ==> NumberField(chunks[3]) && temp.price == StrToL(chunks[3]).value
    {
      var chunk := chunks[counter];
      if counter == 0 {
        if |chunk| != 1 {
          flag := false;
          break;
        }
        var startPartLoc := CheckValidSymbol(chunk[0], symbols);
        if startPartLoc == INVALID_VALUE {
          flag := false;
          break;
        }
        temp := temp.(startPart := chunk[0], startPartIndex := startPartLoc);
      } else if counter == 1 {
        if |chunk| != 1 {
          flag := false;
          break;
        }
        var endPartLoc := CheckValidSymbol(chunk[0], symbols);
        if endPartLoc == INVALID_VALUE {
          flag := false;
          break;
        }
        temp := temp.(endPart := chunk[0]);
      } else if counter == 2 {
        var p := StrToL(chunk);
        if |p.rest| != 0 || p.value <= 0 || p.value > INT_MAX {
          flag := false;
          break;
        }
        temp := temp.(length := p.value);
      } else if counter == 3 {
        var p := StrToL(chunk);
        if |p.rest| != 0 || p.value > INT_MAX || p.value <= 0 {
          flag := false;
          break;
        }
        temp := temp.(price := p.value);
      }
      counter := counter + 1;
    }
    if !flag || counter != 4 {
      return None;
    }
    return Some(temp);
  }

  /** The line a rail is written as: "start,end,length,price". */
  function RoadLine(r: Road): seq<char>
    requires r.length >= 0 && r.price >= 0
  {
    JoinFields([[r.startPart], [r.endPart], Decimal(r.length), Decimal(r.price)])
  }

  /** Round trip: the line of a valid rail passes checkRoadInput's rules and
      gives that rail back. */
  lemma RoadLineRoundTrip(r: Road, symbols: seq<char>)
    requires ValidRoad(r, symbols) && SEPARATOR !in symbols
    ensures RoadFieldsValid(Tokens(RoadLine(r)), symbols)
    ensures RoadOf(Tokens(RoadLine(r)), symbols) == r
  {
    var fields := [[r.startPart], [r.endPart], Decimal(r.length), Decimal(r.price)];
    forall i | 0 <= i < |fields|
      ensures fields[i] != [] && SEPARATOR !in fields[i]
    {
      if i >= 2 {
        assert !IsDigit(SEPARATOR);
      }
    }
    TokensOfJoin(fields);
    StrToLDecimal(r.length, []);
    StrToLDecimal(r.price, []);
    assert [] + Decimal(r.length) == Decimal(r.length);
    assert [] + Decimal(r.price) == Decimal(r.price);
  }
}
