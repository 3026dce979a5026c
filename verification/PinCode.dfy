/** The PIN as the client shows it and as the server reads it from its terminal. */
module PinCode {
  import opened Prelude

  const PIN_COUNT: int := 100_000_000

  /** The first eight bytes, least significant first. */
  function LittleEndian(hash: Bytes, n: nat): (v: nat)
    requires n <= |hash|
  {
    if n == 0 then 0 else hash[0] + 256 * LittleEndian(hash[1..], n - 1)
  }

  // ---------- display ----------

  function DigitChar(d: int): char
    requires 0 <= d < 10
  {
    '0' + d as char
  }

  /** Four decimal digits, padded with zeros on the left. */
  function FourDigits(v: int): string
    requires 0 <= v < 10000
  {
    [DigitChar(v / 1000), DigitChar(v / 100 % 10), DigitChar(v / 10 % 10), DigitChar(v % 10)]
  }

  function DisplayPin(pin: int): string
    requires 0 <= pin < PIN_COUNT
  {
    FourDigits(pin / 10000) + " " + FourDigits(pin % 10000)
  }

  // ---------- input ----------

  predicate IsBlank(c: char) { c == ' ' || c == '\t' || c == '\n' || c == '\r' }

  predicate IsDigit(c: char) { '0' <= c <= '9' }

  /** The number read from the rest of a line; -1 as soon as a character is neither blank nor digit. */
  function Scan(line: string, entered: int): int {
    if line == "" then entered
    else if IsBlank(line[0]) then Scan(line[1..], entered)
    else if !IsDigit(line[0]) then -1
    else Scan(line[1..], Wrap32(entered * 10 + (line[0] as int - '0' as int)))
  }

  /** The line buffer as a PIN; -1 when nothing was read. */
  function ParsePin(line: string): int {
    Scan(line, if line == "" then -1 else 0)
  }

  /** The source's loop over the line buffer. */
  method ReadPin(line: string) returns (entered: int)
    ensures entered == ParsePin(line)
  {
    entered := if line != "" then 0 else -1;
    var i := 0;
    assert line[0..] == line;
    while i < |line|
      invariant 0 <= i <= |line|
      invariant Scan(line[i..], entered) == ParsePin(line)
    {
      assert line[i..][1..] == line[i + 1..];
      var c := line[i];
      i := i + 1;
      if !IsBlank(c) {
        if c < '0' || '9' < c {
          return -1;
        }
        entered := Wrap32(entered * 10 + (c as int - '0' as int));
      }
    }
  }

  // ---------- what is shown can be typed ----------

  /** A line without its blanks. */
  function Squeeze(line: string): string {
    if line == "" then ""
    else if IsBlank(line[0]) then Squeeze(line[1..])
    else [line[0]] + Squeeze(line[1..])
  }

  lemma {:induction false} ScanIgnoresBlanks(line: string, entered: int)
    ensures Scan(line, entered) == Scan(Squeeze(line), entered)
  {
    if line != "" {
      var rest := line[1..];
      if IsBlank(line[0]) {
        ScanIgnoresBlanks(rest, entered);
      } else if IsDigit(line[0]) {
        ScanIgnoresBlanks(rest, Wrap32(entered * 10 + (line[0] as int - '0' as int)));
        assert Squeeze(line)[1..] == Squeeze(rest);
      }
    }
  }

  predicate AllDigits(s: string) { forall i :: 0 <= i < |s| ==> IsDigit(s[i]) }

  /** The value of a string of digits, most significant first. */
  function Decimal(s: string, acc: nat): nat
    requires AllDigits(s)
  {
    if s == "" then acc
    else
      assert IsDigit(s[0]);
      Decimal(s[1..], acc * 10 + (s[0] as int - '0' as int))
  }

  lemma WrapStep(a: int, d: int)
    ensures Wrap32(Wrap32(a) * 10 + d) == Wrap32(a * 10 + d)
  {
    var q := (a - Wrap32(a)) / 0x1_0000_0000;
    assert a == Wrap32(a) + q * 0x1_0000_0000;
    assert a * 10 + d == Wrap32(a) * 10 + d + (q * 10) * 0x1_0000_0000;
    WrapPeriod(Wrap32(a) * 10 + d, q * 10);
  }

  lemma WrapPeriod(v: int, k: int)
    ensures Wrap32(v + k * 0x1_0000_0000) == Wrap32(v)
  {
  }

  /** Digits are read modulo 2^32. */
  lemma {:induction false} ScanReadsDecimal(s: string, acc: nat)
    requires AllDigits(s)
    ensures Scan(s, Wrap32(acc)) == Wrap32(Decimal(s, acc))
  {
    if s != "" {
      assert IsDigit(s[0]);
      var d := s[0] as int - '0' as int;
      WrapStep(acc, d);
      ScanReadsDecimal(s[1..], acc * 10 + d);
    }
  }

  lemma {:induction false} ScanStopsAtOthers(s: string, entered: int)
    requires !AllDigits(s) && Squeeze(s) == s
    ensures Scan(s, entered) == -1
  {
    if IsDigit(s[0]) {
      var rest := s[1..];
      assert !AllDigits(rest) by {
        var i :| 0 <= i < |s| && !IsDigit(s[i]);
        assert rest[i - 1] == s[i];
      }
      SqueezeShrinks(rest);
      ScanStopsAtOthers(rest, Wrap32(entered * 10 + (s[0] as int - '0' as int)));
    } else {
      SqueezeShrinks(s[1..]);
    }
  }

  lemma {:induction false} SqueezeShrinks(s: string)
    ensures |Squeeze(s)| <= |s|
    ensures forall i :: 0 <= i < |Squeeze(s)| ==> !IsBlank(Squeeze(s)[i])
  {
    if s != "" {
      SqueezeShrinks(s[1..]);
    }
  }

  lemma {:induction false} SqueezeTwice(s: string)
    ensures Squeeze(Squeeze(s)) == Squeeze(s)
  {
    if s != "" {
      SqueezeTwice(s[1..]);
      if !IsBlank(s[0]) {
        assert Squeeze(s)[1..] == Squeeze(s[1..]);
      }
    }
  }

  /** What every line is read as: the number its digits make, wrapped to 32 bits; or -1 if it is empty or holds
      anything but digits and blanks. */
  lemma LineIsReadAs(line: string)
    ensures ParsePin(line) ==
      if line != "" && AllDigits(Squeeze(line)) then Wrap32(Decimal(Squeeze(line), 0)) else -1
  {
    ScanIgnoresBlanks(line, 0);
    SqueezeTwice(line);
    if AllDigits(Squeeze(line)) {
      ScanReadsDecimal(Squeeze(line), 0);
    } else {
      ScanStopsAtOthers(Squeeze(line), 0);
    }
  }

  /** A line is read as a PIN if and only if it holds nothing but digits and blanks, and the number the digits make
      is the PIN modulo 2^32. */
  lemma LineIsReadExactly(line: string, pin: int)
    requires 0 <= pin < PIN_COUNT
    ensures ParsePin(line) == pin <==>
      line != "" && AllDigits(Squeeze(line)) && Decimal(Squeeze(line), 0) % 0x1_0000_0000 == pin
  {
    LineIsReadAs(line);
  }

  lemma TenDigits()
    ensures AllDigits("42949" + "67296") && Decimal("42949" + "67296", 0) == 0x1_0000_0000
  {
    var hi, lo := "42949", "67296";
    DecimalOfConcat(hi, lo, 0);
    FiveDigits(hi, 0);
    FiveDigits(lo, 42949);
  }

  /** Ten digits that are not 0 are read as the PIN 0. */
  lemma LongLineWraps()
    ensures ParsePin("4294967296") == 0 && AllDigits("4294967296") && Decimal("4294967296", 0) == 4294967296
  {
    TenDigits();
    assert "4294967296" == "42949" + "67296";
    SqueezeOfDigits("4294967296");
    LineIsReadExactly("4294967296", 0);
  }

  lemma FiveDigits(s: string, acc: nat)
    requires |s| == 5 && AllDigits(s)
    ensures Decimal(s, acc) == (acc * 10 + (s[0] as int - '0' as int)) * 10000 + (s[1] as int - '0' as int) * 1000
      + (s[2] as int - '0' as int) * 100 + (s[3] as int - '0' as int) * 10 + (s[4] as int - '0' as int)
  {
    assert IsDigit(s[0]);
    DecimalOfFour(s[1..], acc * 10 + (s[0] as int - '0' as int));
  }

  lemma FourDigitsOf(v: int)
    requires 0 <= v < 10000
    ensures v == (v / 1000) * 1000 + (v / 100 % 10) * 100 + (v / 10 % 10) * 10 + v % 10
  {
    var tens, hundreds := v / 10, v / 10 / 10;
    assert v / 100 == hundreds && v / 1000 == hundreds / 10;
    assert v == tens * 10 + v % 10 && tens == hundreds * 10 + tens % 10;
    assert hundreds == (hundreds / 10) * 10 + hundreds % 10;
  }

  lemma DecimalOfFour(s: string, acc: nat)
    requires |s| == 4 && AllDigits(s)
    ensures Decimal(s, acc) == acc * 10000 + (s[0] as int - '0' as int) * 1000 + (s[1] as int - '0' as int) * 100
                               + (s[2] as int - '0' as int) * 10 + (s[3] as int - '0' as int)
  {
    var a := acc * 10 + (s[0] as int - '0' as int);
    var b := a * 10 + (s[1] as int - '0' as int);
    var c := b * 10 + (s[2] as int - '0' as int);
    assert Decimal(s, acc) == Decimal(s[1..], a);
    assert Decimal(s[1..], a) == Decimal(s[1..][1..], b);
    assert Decimal(s[1..][1..], b) == Decimal(s[1..][1..][1..], c);
  }

  lemma FourDigitsDecimal(v: int, acc: nat)
    requires 0 <= v < 10000
    ensures AllDigits(FourDigits(v))
    ensures Decimal(FourDigits(v), acc) == acc * 10000 + v
  {
    FourDigitsOf(v);
    DecimalOfFour(FourDigits(v), acc);
  }

  lemma {:induction false} DecimalOfConcat(a: string, b: string, acc: nat)
    requires AllDigits(a) && AllDigits(b)
    ensures Decimal(a + b, acc) == Decimal(b, Decimal(a, acc))
  {
    if a == "" {
      assert a + b == b;
    } else {
      assert (a + b)[1..] == a[1..] + b;
      DecimalOfConcat(a[1..], b, acc * 10 + (a[0] as int - '0' as int));
    }
  }

  lemma {:induction false} SqueezeOfConcat(a: string, b: string)
    ensures Squeeze(a + b) == Squeeze(a) + Squeeze(b)
  {
    if a == "" {
      assert a + b == b;
    } else {
      assert (a + b)[1..] == a[1..] + b;
      SqueezeOfConcat(a[1..], b);
    }
  }

  lemma {:induction false} SqueezeOfDigits(s: string)
    requires AllDigits(s)
    ensures Squeeze(s) == s
  {
    if s != "" {
      SqueezeOfDigits(s[1..]);
    }
  }

  lemma DisplayedDigits(pin: int)
    requires 0 <= pin < PIN_COUNT
    ensures Squeeze(DisplayPin(pin)) == FourDigits(pin / 10000) + FourDigits(pin % 10000)
  {
    var hi, lo := FourDigits(pin / 10000), FourDigits(pin % 10000);
    FourDigitsDecimal(pin / 10000, 0);
    FourDigitsDecimal(pin % 10000, 0);
    SqueezeOfConcat(hi + " ", lo);
    SqueezeOfConcat(hi, " ");
    SqueezeOfDigits(hi);
    SqueezeOfDigits(lo);
  }

  lemma DisplayedDecimal(pin: int)
    requires 0 <= pin < PIN_COUNT
    ensures var s := Squeeze(DisplayPin(pin)); s != "" && AllDigits(s) && Decimal(s, 0) == pin
  {
    var hi, lo := FourDigits(pin / 10000), FourDigits(pin % 10000);
    DisplayedDigits(pin);
    FourDigitsDecimal(pin / 10000, 0);
    FourDigitsDecimal(pin % 10000, pin / 10000);
    DecimalOfConcat(hi, lo, 0);
  }

  /** Typing the PIN as displayed, with blanks anywhere, is read as that PIN. */
  lemma DisplayedPinIsRead(pin: int, line: string)
    requires 0 <= pin < PIN_COUNT
    requires Squeeze(line) == Squeeze(DisplayPin(pin))
    ensures ParsePin(line) == pin
  {
    DisplayedDecimal(pin);
    assert line != "";
    LineIsReadExactly(line, pin);
  }

  /** The characters a line may hold besides digits; every line typed ends with the third. */
  const SPACES: set<char> := {' ', '\t', '\n', '\r'}

  lemma {:induction false} ScanSkips(a: string, c: char, b: string, entered: int)
    requires c in SPACES
    ensures Scan(a + [c] + b, entered) == Scan(a + b, entered)
  {
    if a == "" {
      assert a + [c] + b == [c] + b && ([c] + b)[1..] == b && a + b == b;
    } else {
      assert (a + [c] + b)[1..] == a[1..] + [c] + b && (a + b)[1..] == a[1..] + b;
      if IsBlank(a[0]) {
        ScanSkips(a[1..], c, b, entered);
      } else if IsDigit(a[0]) {
        ScanSkips(a[1..], c, b, Wrap32(entered * 10 + (a[0] as int - '0' as int)));
      }
    }
  }

  /** A space, a tab, a line feed or a carriage return anywhere in a line makes no difference; alone it is 0. */
  lemma SpaceMakesNoDifference(a: string, c: char, b: string)
    requires c in SPACES
    ensures ParsePin(a + [c] + b) == if a + b == "" then 0 else ParsePin(a + b)
  {
    ScanSkips(a, c, b, 0);
  }

  lemma {:induction false} ScanRefuses(s: string, i: nat, entered: int)
    requires i < |s| && s[i] !in SPACES && !('0' <= s[i] <= '9')
    ensures Scan(s, entered) == -1
  {
    if i > 0 {
      if IsBlank(s[0]) {
        ScanRefuses(s[1..], i - 1, entered);
      } else if IsDigit(s[0]) {
        ScanRefuses(s[1..], i - 1, Wrap32(entered * 10 + (s[0] as int - '0' as int)));
      }
    }
  }

  /** Any other character makes the line unreadable. */
  lemma OtherCharacterRefuses(line: string, i: nat)
    requires i < |line| && line[i] !in SPACES && !('0' <= line[i] <= '9')
    ensures ParsePin(line) == -1
  {
    ScanRefuses(line, i, 0);
  }

  /** The PIN as displayed, typed and ended with Enter, is read as the PIN; so it is without the blank in it. */
  lemma TypedPinIsRead(pin: int)
    requires 0 <= pin < PIN_COUNT
    ensures ParsePin(DisplayPin(pin) + "\n") == pin
    ensures ParsePin(DisplayPin(pin)[..4] + DisplayPin(pin)[5..] + "\n") == pin
  {
    var hi, lo := DisplayPin(pin)[..4], DisplayPin(pin)[5..];
    DisplayedPinIsRead(pin, DisplayPin(pin));
    SpaceMakesNoDifference(DisplayPin(pin), '\n', "");
    assert DisplayPin(pin) + ['\n'] + "" == DisplayPin(pin) + "\n" && DisplayPin(pin) + "" == DisplayPin(pin);
    SpaceMakesNoDifference(hi, ' ', lo + "\n");
    assert hi + [' '] + (lo + "\n") == DisplayPin(pin) + "\n" && hi + (lo + "\n") == hi + lo + "\n";
  }

  lemma FourDigitsExamples()
    ensures FourDigits(1234) == "1234" && FourDigits(5678) == "5678"
  {
  }

  lemma DisplayedExample()
    ensures DisplayPin(12345678) == "1234 5678"
  {
    FourDigitsExamples();
  }

  /** How a PIN looks: four digits, a blank, four digits; and the line Enter alone makes. */
  lemma SomePins()
    ensures DisplayPin(12345678) == "1234 5678"
    ensures ParsePin("1234 5678\n") == 12345678 && ParsePin("\n") == 0
  {
    DisplayedExample();
    TypedPinIsRead(12345678);
    assert "1234 5678" + "\n" == "1234 5678\n";
    SpaceMakesNoDifference("", '\n', "");
    assert "" + ['\n'] + "" == "\n";
  }

  /** A line of blanks alone, such as a bare Enter, is read as the number 0. */
  lemma BlankLineIsZero(line: string)
    requires line != "" && Squeeze(line) == ""
    ensures ParsePin(line) == 0
  {
    ScanIgnoresBlanks(line, 0);
  }
}
