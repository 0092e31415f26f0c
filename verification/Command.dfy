/** Commands and unit addresses (common/command.h). */
module Commands {
  import opened Text

  datatype Kind = Set | On | Off | Dim | Bright | Init | MoveUp | MoveDown | MoveLeft | MoveRight {
    /** The value afterwards does not depend on the value before. */
    predicate Erases() { this == Set || this == Off }

    predicate IsStep() { this == Dim || this == Bright }

    /** The commands a controller turns into a new value. */
    predicate IsSimple() { IsStep() || this == On || this == Off }

    predicate ChangesValue() { IsSimple() || this == Set }
  }

  datatype Address = Address(channel: char, unit: int) {
    /** A pattern over the known units rather than one unit. */
    predicate Generic() { channel == '*' || unit == 0 }

    predicate Valid() { 'A' <= channel <= 'P' && 1 <= unit <= 16 }

    function ToText(): string {
      if Generic() then [channel] else [channel] + Number(unit)
    }
  }

  /** `value` is the target of a Set. */
  datatype Command = Command(address: Address, kind: Kind, value: int) {
    /** What the service's validators let through to the queue. */
    predicate Valid(max: int) {
      address.Valid() && (kind == Set ==> -1 <= value <= max)
    }
  }

  function KindOf(c: char): Option<Kind> {
    match c
    case '=' => Some(Set)
    case '+' => Some(On)
    case '-' => Some(Off)
    case 's' => Some(Dim)
    case 'b' => Some(Bright)
    case 'i' => Some(Init)
    case 'u' => Some(MoveUp)
    case 'd' => Some(MoveDown)
    case 'l' => Some(MoveLeft)
    case 'r' => Some(MoveRight)
    case _ => None
  }

  /** The character of a command kind (COMMAND_TYPE). */
  function CodeOf(kind: Kind): char {
    match kind
    case Set => '='
    case On => '+'
    case Off => '-'
    case Dim => 's'
    case Bright => 'b'
    case Init => 'i'
    case MoveUp => 'u'
    case MoveDown => 'd'
    case MoveLeft => 'l'
    case MoveRight => 'r'
  }

  lemma KindOfInvertsCodeOf(c: char, kind: Kind)
    ensures KindOf(c) == Some(kind) <==> c == CodeOf(kind)
  {
  }

  /** The kinds in the order in which the program lists their characters. */
  const KINDS: seq<Kind> := [Set, On, Off, Dim, Bright, Init, MoveUp, MoveDown, MoveLeft, MoveRight]

  /** Which character stands for which kind. */
  lemma CodesAreThoseOfTheProgram(k: nat)
    requires k < 10
    ensures CodeOf(KINDS[k]) == "=+-sbiudlr"[k]
    ensures KindOf("=+-sbiudlr"[k]) == Some(KINDS[k])
  {
  }

  /** `X10::sourceToAddress`; None is a refused source. */
  function SourceToAddress(source: string): Option<Address> {
    if source == "*" then Some(Address('*', 0))
    else if |source| < 2 || |source| > 3 then None
    else
      var channel := UpperChar(source[0]);
      var unit := if source[1..] == "*" then Some(0) else ToInt(source[1..]);
      if unit.Some? && 0 <= unit.value < 17 && 'A' <= channel <= 'P'
      then Some(Address(channel, unit.value)) else None
  }

  predicate IsValidAddress(source: string) { SourceToAddress(source).Some? }

  /** What `X10::sourceToAddress` leaves in its channel and unit, accepted or not: a text of
      another length than two or three, other than "*", leaves both as they were. */
  function ReadInto(source: string, before: Address): Address {
    if source == "*" then Address('*', 0)
    else if |source| < 2 || |source| > 3 then before
    else Address(UpperChar(source[0]), if source[1..] == "*" then 0 else OrZero(ToInt(source[1..])))
  }

  lemma ReadIntoAccepted(source: string, before: Address)
    requires IsValidAddress(source)
    ensures ReadInto(source, before) == SourceToAddress(source).value
  {
  }

  /** A pattern or one unit. */
  predicate Proper(a: Address) { a.Generic() || a.Valid() }

  /** The key of one unit, as the worker and the remote control write it. */
  predicate IsUnit(key: string) {
    && SourceToAddress(key).Some?
    && SourceToAddress(key).value.Valid()
    && SourceToAddress(key).value.ToText() == key
  }

  /** The key of a unit is its letter and its number, without leading zeros. */
  lemma ToTextIsPlain(a: Address)
    requires a.Valid()
    ensures a.ToText() ==
            [a.channel] + ["1", "2", "3", "4", "5", "6", "7", "8",
                           "9", "10", "11", "12", "13", "14", "15", "16"][a.unit - 1]
  {
    var n := a.unit;
    assert n >= 10 ==> Digits(n) == Digits(n / 10) + [('0' as int + n % 10) as char];
    assert Digits(1) == "1";
    assert n >= 10 ==> n / 10 == 1;
  }

  lemma LetterIsRead(c: char, rest: string)
    requires 'A' <= UpperChar(c) <= 'P' && 1 <= |rest| <= 2
    ensures SourceToAddress([c] + rest) ==
            if rest == "*" then Some(Address(UpperChar(c), 0))
            else if ToInt(rest).Some? && 0 <= ToInt(rest).value <= 16 then Some(Address(UpperChar(c), ToInt(rest).value))
            else None
  {
    assert ([c] + rest)[1..] == rest;
  }

  lemma {:induction false} LongNumber(n: int)
    ensures |Number(n)| <= 2 ==> -9 <= n <= 99
    ensures 0 <= n <= 99 ==> |Number(n)| <= 2
    ensures Number(n) != "*"
  {
    assert Number(n)[0] == '-' || IsDigit(Number(n)[0]);
    var m := if n < 0 then -n else n;
    if m >= 10 {
      assert Digits(m) == Digits(m / 10) + [('0' as int + m % 10) as char];
      if m >= 100 { assert Digits(m / 10) == Digits(m / 10 / 10) + [('0' as int + m / 10 % 10) as char]; }
    }
  }

  lemma NumberIsRead(c: char, n: int)
    requires 'A' <= UpperChar(c) <= 'P'
    ensures SourceToAddress([c] + Number(n)) == if 0 <= n <= 16 then Some(Address(UpperChar(c), n)) else None
  {
    LongNumber(n);
    if |Number(n)| <= 2 {
      LetterIsRead(c, Number(n));
      ToIntReadsNumber(n);
    }
  }

  /** What is accepted as an address, and what it stands for: "*", or a letter A to P of either
      case with "*" or a number from 0 to 16. */
  lemma SourcesAreRead(letter: nat, n: int)
    requires letter < 16
    ensures SourceToAddress("*") == Some(Address('*', 0))
    ensures var capital, small := "ABCDEFGHIJKLMNOP"[letter], "abcdefghijklmnop"[letter];
            && SourceToAddress([capital] + "*") == SourceToAddress([small] + "*") == Some(Address(capital, 0))
            && SourceToAddress([capital] + Number(n)) == SourceToAddress([small] + Number(n)) ==
               if 0 <= n <= 16 then Some(Address(capital, n)) else None
  {
    var capital, small := "ABCDEFGHIJKLMNOP"[letter], "abcdefghijklmnop"[letter];
    assert UpperChar(small) == capital && UpperChar(capital) == capital;
    LetterIsRead(capital, "*");
    LetterIsRead(small, "*");
    NumberIsRead(capital, n);
    NumberIsRead(small, n);
  }

  /** Any other length, letter or number is refused. */
  lemma SourcesAreRefused(source: string)
    requires source != "*"
    requires |source| < 2 || |source| > 3 || UpperChar(source[0]) !in "ABCDEFGHIJKLMNOP" ||
             (source[1..] != "*" && ToInt(source[1..]) == None)
    ensures SourceToAddress(source) == None
  {
    if 2 <= |source| <= 3 {
      var c := UpperChar(source[0]);
      if 'A' <= c <= 'P' { assert "ABCDEFGHIJKLMNOP"[c as int - 65] == c; }
    }
  }

  /** Two different units never share a key. */
  lemma ToTextIsInjective(a: Address, b: Address)
    requires !a.Generic() && !b.Generic() && a.ToText() == b.ToText()
    ensures a == b
  {
    assert a.ToText()[1..] == Number(a.unit) && b.ToText()[1..] == Number(b.unit);
    assert a.ToText()[0] == a.channel && b.ToText()[0] == b.channel;
    NumberIsInjective(a.unit, b.unit);
  }

  /** Reading the key of a unit gives the unit back. */
  lemma SourceToAddressReadsText(a: Address)
    requires a.Valid()
    ensures SourceToAddress(a.ToText()) == Some(a)
  {
    DigitsLength(a.unit);
    ToIntReadsNumber(a.unit);
    assert a.ToText()[1..] == Number(a.unit);
    assert IsDigit(Number(a.unit)[0]);
  }
}
