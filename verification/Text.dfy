/** Decimal numbers, separated fields and letter case, as the program's strings use them. */
module Text {

  datatype Option<+T> = None | Some(value: T)

  const INT_MIN: int := -0x8000_0000
  const INT_MAX: int := 0x7FFF_FFFF
  const UINT_MAX: int := 0xFFFF_FFFF

  // ---------------------------------------------------------------- letter case

  function UpperChar(c: char): char {
    if 'a' <= c <= 'z' then (c as int - 32) as char else c
  }

  function Upper(s: string): (r: string)
    ensures |r| == |s|
    ensures forall i :: 0 <= i < |s| ==> r[i] == UpperChar(s[i])
  {
    seq(|s|, i requires 0 <= i < |s| => UpperChar(s[i]))
  }

  /** The small letters become the capital letters in their places; nothing else changes. */
  lemma UpperIsTheAlphabet(c: char, k: nat)
    requires k < 26
    ensures UpperChar("abcdefghijklmnopqrstuvwxyz"[k]) == "ABCDEFGHIJKLMNOPQRSTUVWXYZ"[k]
    ensures c !in "abcdefghijklmnopqrstuvwxyz" ==> UpperChar(c) == c
  {
    var small := "abcdefghijklmnopqrstuvwxyz";
    if 'a' <= c <= 'z' { assert small[c as int - 97] == c; }
  }

  lemma UpperIsIdempotent(s: string)
    ensures Upper(Upper(s)) == Upper(s)
  {
    assert forall i :: 0 <= i < |s| ==> UpperChar(UpperChar(s[i])) == UpperChar(s[i]);
  }

  // ---------------------------------------------------------------- decimal numbers

  predicate IsDigit(c: char) { '0' <= c <= '9' }

  predicate AllDigits(s: string) { forall c :: c in s ==> IsDigit(c) }

  function Digits(n: nat): (s: string)
    ensures s != [] && AllDigits(s)
  {
    var last := [('0' as int + n % 10) as char];
    if n < 10 then last else Digits(n / 10) + last
  }

  function DigitsValue(s: string): nat
    requires AllDigits(s)
  {
    if s == [] then 0
    else
      assert s[|s| - 1] in s;
      DigitsValue(s[..|s| - 1]) * 10 + (s[|s| - 1] as int - '0' as int)
  }

  /** Reading goes from the first digit to the last, ten times what is read so far and the next. */
  lemma LastDigit(front: string, c: char)
    requires AllDigits(front) && IsDigit(c)
    ensures AllDigits(front + [c])
    ensures DigitsValue(front + [c]) == DigitsValue(front) * 10 + (c as int - '0' as int)
  {
    assert (front + [c])[..|front|] == front;
  }

  /** The decimal text of an integer, as `QString::number` prints it. */
  function Number(n: int): string {
    if n < 0 then "-" + Digits(-n) else Digits(n)
  }

  lemma {:induction false} DigitsRoundTrip(n: nat)
    ensures DigitsValue(Digits(n)) == n
  {
    if n >= 10 {
      DigitsRoundTrip(n / 10);
      assert Digits(n)[..|Digits(n)| - 1] == Digits(n / 10);
    }
  }

  lemma NumberIsInjective(m: int, n: int)
    requires Number(m) == Number(n)
    ensures m == n
  {
    var mag := k => if k < 0 then -k else k;
    DigitsRoundTrip(if m < 0 then -m else m);
    DigitsRoundTrip(if n < 0 then -n else n);
    assert IsDigit(Digits(mag(m))[0]) && IsDigit(Digits(mag(n))[0]);
    if m < 0 { assert Number(m)[1..] == Digits(-m); }
    if n < 0 { assert Number(n)[1..] == Digits(-n); }
  }

  // ---------------------------------------------------------------- reading numbers

  predicate IsSpace(c: char) { c == ' ' || 9 <= c as int <= 13 }

  function TrimLeft(s: string): string {
    if s != [] && IsSpace(s[0]) then TrimLeft(s[1..]) else s
  }

  function TrimRight(s: string): string {
    if s != [] && IsSpace(s[|s| - 1]) then TrimRight(s[..|s| - 1]) else s
  }

  function Unsigned(s: string): Option<int> {
    if s != [] && AllDigits(s) then Some(DigitsValue(s)) else None
  }

  /** `QString::toInt`: surrounding space and one sign are accepted, 32 bits are kept. */
  function ToInt(s: string): Option<int> {
    var t := TrimRight(TrimLeft(s));
    var v := if t == [] then None
             else if t[0] == '-' then
               match Unsigned(t[1..]) { case Some(m) => Some(-m) case None => None }
             else if t[0] == '+' then Unsigned(t[1..])
             else Unsigned(t);
    match v
    case Some(n) => if INT_MIN <= n <= INT_MAX then Some(n) else None
    case None => None
  }

  /** `QString::toUInt`. */
  function ToUInt(s: string): Option<int> {
    var t := TrimRight(TrimLeft(s));
    var v := if t != [] && t[0] == '+' then Unsigned(t[1..]) else Unsigned(t);
    match v
    case Some(n) => if n <= UINT_MAX then Some(n) else None
    case None => None
  }

  /** A failed conversion reads as 0. */
  function OrZero(v: Option<int>): int {
    match v case Some(n) => n case None => 0
  }

  lemma NumberHasNoSpace(n: int)
    ensures TrimRight(TrimLeft(Number(n))) == Number(n)
  {
    var s := Number(n);
    assert s[0] == '-' || IsDigit(s[0]);
    assert s[|s| - 1] in Digits(if n < 0 then -n else n);
  }

  /** Printing then reading keeps an integer exactly when it fits 32 bits. */
  lemma ToIntReadsNumber(n: int)
    ensures OrZero(ToInt(Number(n))) == n <==> INT_MIN <= n <= INT_MAX
    ensures INT_MIN <= n <= INT_MAX ==> ToInt(Number(n)) == Some(n)
    ensures -2147483648 <= n <= 2147483647 <==> ToInt(Number(n)).Some?
  {
    NumberHasNoSpace(n);
    if n < 0 {
      DigitsRoundTrip(-n);
      assert Number(n)[1..] == Digits(-n);
    } else {
      DigitsRoundTrip(n);
      assert IsDigit(Number(n)[0]);
    }
  }

  lemma {:induction false} TrimLeftDrops(spaces: string, s: string)
    requires forall c :: c in spaces ==> IsSpace(c)
    requires s != [] && !IsSpace(s[0])
    ensures TrimLeft(spaces + s) == s
  {
    if spaces == [] {
      assert spaces + s == s;
    } else {
      assert (spaces + s)[1..] == spaces[1..] + s;
      TrimLeftDrops(spaces[1..], s);
    }
  }

  lemma {:induction false} TrimRightDrops(s: string, spaces: string)
    requires forall c :: c in spaces ==> IsSpace(c)
    requires s != [] && !IsSpace(s[|s| - 1])
    ensures TrimRight(s + spaces) == s
  {
    if spaces == [] {
      assert s + spaces == s;
    } else {
      var front := spaces[..|spaces| - 1];
      assert (s + spaces)[..|s + spaces| - 1] == s + front;
      TrimRightDrops(s, front);
    }
  }

  /** The blank, the tabs, the line feeds and the carriage return. */
  lemma SpacesAre(c: char)
    ensures IsSpace(c) <==> c == ' ' || c as int in [9, 10, 11, 12, 13]
  {
  }

  /** Blanks around a printed number, and a plus sign in front of one, make no difference. */
  lemma ToIntReadsSpaced(before: string, n: int, after: string)
    requires forall c :: c in before + after ==> IsSpace(c)
    requires -2147483648 <= n <= 2147483647
    ensures ToInt(before + Number(n) + after) == Some(n)
    ensures n >= 0 ==> ToInt(before + ("+" + Number(n)) + after) == Some(n)
    ensures n >= 0 ==> ToUInt(before + Number(n) + after) == ToUInt(before + ("+" + Number(n)) + after) == Some(n)
  {
    var s := Number(n);
    assert forall c :: c in before ==> c in before + after;
    assert forall c :: c in after ==> c in before + after;
    assert s[0] == '-' || IsDigit(s[0]);
    assert s[|s| - 1] in Digits(if n < 0 then -n else n);
    Trimmed(before, s, after);
    NumberHasNoSpace(n);
    ToIntReadsNumber(n);
    if n >= 0 {
      Trimmed(before, "+" + s, after);
      assert ("+" + s)[1..] == s;
      DigitsRoundTrip(n);
      assert IsDigit(s[0]);
    }
  }

  lemma Trimmed(before: string, s: string, after: string)
    requires (forall c :: c in before ==> IsSpace(c)) && forall c :: c in after ==> IsSpace(c)
    requires s != [] && !IsSpace(s[0]) && !IsSpace(s[|s| - 1])
    ensures TrimRight(TrimLeft(before + s + after)) == s
  {
    assert before + s + after == before + (s + after);
    TrimLeftDrops(before, s + after);
    TrimRightDrops(s, after);
  }

  /** What is no number reads as none. */
  lemma ToIntRefuses(s: string, c: char)
    requires c in s && !IsDigit(c) && !IsSpace(c) && c != '-' && c != '+'
    ensures ToInt(s) == None && ToUInt(s) == None
  {
    TrimLeftKeeps(s, c);
    TrimRightKeeps(TrimLeft(s), c);
    var t := TrimRight(TrimLeft(s));
    if t[0] == '-' || t[0] == '+' { assert t == [t[0]] + t[1..]; }
  }

  lemma {:induction false} TrimLeftKeeps(s: string, c: char)
    requires c in s && !IsSpace(c)
    ensures c in TrimLeft(s)
  {
    if IsSpace(s[0]) {
      assert s == [s[0]] + s[1..];
      TrimLeftKeeps(s[1..], c);
    }
  }

  lemma {:induction false} TrimRightKeeps(s: string, c: char)
    requires c in s && !IsSpace(c)
    ensures c in TrimRight(s)
  {
    if IsSpace(s[|s| - 1]) {
      assert s == s[..|s| - 1] + [s[|s| - 1]];
      TrimRightKeeps(s[..|s| - 1], c);
    }
  }

  lemma ToUIntReadsNumber(n: nat)
    ensures OrZero(ToUInt(Number(n))) == n <==> n <= UINT_MAX
    ensures n <= 4294967295 <==> ToUInt(Number(n)).Some?
  {
    NumberHasNoSpace(n);
    DigitsRoundTrip(n);
    assert IsDigit(Number(n)[0]);
  }

  lemma {:induction false} DigitsLength(n: nat)
    requires n < 100
    ensures |Digits(n)| == if n < 10 then 1 else 2
  {
    if n >= 10 { assert Digits(n) == Digits(n / 10) + [('0' as int + n % 10) as char]; }
  }

  // ---------------------------------------------------------------- separated fields

  predicate Free(s: string, sep: char) { sep !in s }

  /** `QString::split`, keeping empty parts. */
  function Split(s: string, sep: char): (parts: seq<string>)
    ensures parts != []
    ensures forall i :: 0 <= i < |parts| ==> Free(parts[i], sep)
  {
    if s == [] then [[]]
    else
      var rest := Split(s[1..], sep);
      if s[0] == sep then [[]] + rest
      else [[s[0]] + rest[0]] + rest[1..]
  }

  function NonEmpty(parts: seq<string>): (r: seq<string>)
    ensures forall p :: p in r <==> p in parts && p != []
  {
    if parts == [] then []
    else (if parts[0] == [] then [] else [parts[0]]) + NonEmpty(parts[1..])
  }

  /** `QString::split` with `SkipEmptyParts`. */
  function SplitSkip(s: string, sep: char): seq<string> {
    NonEmpty(Split(s, sep))
  }

  /** One separator-free field in front of a separator is the first part of the split. */
  lemma {:induction false} SplitField(a: string, sep: char, b: string)
    requires Free(a, sep)
    ensures Split(a + [sep] + b, sep) == [a] + Split(b, sep)
  {
    var s := a + [sep] + b;
    if a == [] {
      assert s[1..] == b;
    } else {
      assert s[1..] == a[1..] + [sep] + b;
      SplitField(a[1..], sep, b);
      assert [s[0]] + a[1..] == a;
    }
  }

  lemma {:induction false} SplitWhole(a: string, sep: char)
    requires Free(a, sep)
    ensures Split(a, sep) == [a]
  {
    if a != [] {
      SplitWhole(a[1..], sep);
      assert [a[0]] + a[1..] == a;
    }
  }

  /** Every part of a split is made of characters of the text. */
  lemma {:induction false} SplitChars(s: string, sep: char, part: string, c: char)
    requires part in Split(s, sep) && c in part
    ensures c in s
  {
    if s != [] {
      var rest := Split(s[1..], sep);
      if s[0] == sep {
        SplitChars(s[1..], sep, part, c);
      } else if part == [s[0]] + rest[0] {
        if c != s[0] { SplitChars(s[1..], sep, rest[0], c); }
      } else {
        assert part in rest[1..];
        SplitChars(s[1..], sep, part, c);
      }
    }
  }

  /** Fields with a separator between them. */
  function Join(fields: seq<string>, sep: char): string {
    if fields == [] then []
    else if |fields| == 1 then fields[0]
    else fields[0] + [sep] + Join(fields[1..], sep)
  }

  lemma {:induction false} SplitJoin(fields: seq<string>, sep: char)
    requires fields != [] && forall i :: 0 <= i < |fields| ==> Free(fields[i], sep)
    ensures Split(Join(fields, sep), sep) == fields
  {
    if |fields| == 1 {
      SplitWhole(fields[0], sep);
    } else {
      SplitJoin(fields[1..], sep);
      SplitField(fields[0], sep, Join(fields[1..], sep));
    }
  }

  lemma {:induction false} NoneEmpty(parts: seq<string>)
    requires forall p :: p in parts ==> p != []
    ensures NonEmpty(parts) == parts
  {
    if parts != [] {
      assert parts[0] in parts && forall p :: p in parts[1..] ==> p in parts;
      NoneEmpty(parts[1..]);
    }
  }

  /** Words with one separator between them come back as they were. */
  lemma SplitSkipJoin(words: seq<string>, sep: char)
    requires forall w :: w in words ==> w != [] && Free(w, sep)
    ensures SplitSkip(Join(words, sep), sep) == words
  {
    if words == [] {
      assert Split([], sep) == [[]] && NonEmpty([[]]) == [] + NonEmpty([[]][1..]);
    } else {
      SplitJoin(words, sep);
      NoneEmpty(words);
    }
  }

  lemma {:induction false} JoinChars(fields: seq<string>, sep: char, c: char)
    requires c != sep && forall i :: 0 <= i < |fields| ==> Free(fields[i], c)
    ensures Free(Join(fields, sep), c)
  {
    if |fields| > 1 { JoinChars(fields[1..], sep, c); }
  }

  /** Texts each followed by a separator. */
  function Terminated(parts: seq<string>, sep: char): string {
    if parts == [] then [] else parts[0] + [sep] + Terminated(parts[1..], sep)
  }

  lemma {:induction false} SplitTerminated(parts: seq<string>, sep: char)
    requires forall i :: 0 <= i < |parts| ==> parts[i] != [] && Free(parts[i], sep)
    ensures SplitSkip(Terminated(parts, sep), sep) == parts
  {
    if parts == [] {
      var none := Split(Terminated(parts, sep), sep);
      assert |none| == 1 && none[0] == [] && none[1..] == [];
      assert NonEmpty(none) == [] + NonEmpty(none[1..]);
    } else {
      SplitTerminated(parts[1..], sep);
      SplitField(parts[0], sep, Terminated(parts[1..], sep));
      var rest := Split(Terminated(parts[1..], sep), sep);
      assert Split(Terminated(parts, sep), sep) == [parts[0]] + rest;
      assert ([parts[0]] + rest)[1..] == rest;
    }
  }

  lemma SplitFirst(c: char, rest: string, sep: char)
    ensures var parts := Split(rest, sep);
            Split([c] + rest, sep) == if c == sep then [[]] + parts else [[c] + parts[0]] + parts[1..]
  {
    assert ([c] + rest)[1..] == rest;
  }

  lemma FirstPart(c: char, p: seq<string>, q: seq<string>)
    requires p != []
    ensures [[c] + (p + q)[0]] + (p + q)[1..] == ([[c] + p[0]] + p[1..]) + q
    ensures [[]] + (p + q) == ([[]] + p) + q
  {
  }

  /** A separator splits what stands before it from what stands behind it. */
  lemma {:induction false} SplitAround(a: string, sep: char, b: string)
    ensures Split(a + [sep] + b, sep) == Split(a, sep) + Split(b, sep)
  {
    if a == [] {
      assert a + [sep] + b == [sep] + b;
      SplitFirst(sep, b, sep);
    } else {
      var c, rest := a[0], a[1..];
      SplitAround(rest, sep, b);
      assert a == [c] + rest && a + [sep] + b == [c] + (rest + [sep] + b);
      SplitFirst(c, rest, sep);
      SplitFirst(c, rest + [sep] + b, sep);
      FirstPart(c, Split(rest, sep), Split(b, sep));
    }
  }

  lemma {:induction false} NonEmptyConcat(p: seq<string>, q: seq<string>)
    ensures NonEmpty(p + q) == NonEmpty(p) + NonEmpty(q)
  {
    if p == [] {
      assert p + q == q;
    } else {
      assert (p + q)[1..] == p[1..] + q;
      NonEmptyConcat(p[1..], q);
    }
  }

  /** Texts with separators inside are split apart one by one. */
  lemma SplitSkipTerminated(parts: seq<string>, sep: char)
    requires parts != []
    ensures SplitSkip(Terminated(parts, sep), sep) ==
            SplitSkip(parts[0], sep) + SplitSkip(Terminated(parts[1..], sep), sep)
  {
    SplitAround(parts[0], sep, Terminated(parts[1..], sep));
    NonEmptyConcat(Split(parts[0], sep), Split(Terminated(parts[1..], sep), sep));
  }

  /** Texts come back from the split exactly when none is empty or holds a separator. */
  lemma SplitTerminatedExactly(parts: seq<string>, sep: char)
    ensures SplitSkip(Terminated(parts, sep), sep) == parts <==>
            forall i :: 0 <= i < |parts| ==> parts[i] != [] && Free(parts[i], sep)
  {
    var r := SplitSkip(Terminated(parts, sep), sep);
    forall i | 0 <= i < |r|
      ensures r[i] != [] && Free(r[i], sep)
    {
      assert r[i] in r;
    }
    if forall i :: 0 <= i < |parts| ==> parts[i] != [] && Free(parts[i], sep) { SplitTerminated(parts, sep); }
  }

  // ---------------------------------------------------------------- string order

  /** The order of `QString`, which orders the keys of a `std::map`. */
  predicate Before(a: string, b: string) {
    if b == [] then false
    else if a == [] then true
    else if a[0] != b[0] then a[0] < b[0]
    else Before(a[1..], b[1..])
  }

  /** One text is before another exactly if it is a beginning of it, or has the smaller
      character in the first place where they differ. */
  lemma {:induction false} BeforeIsLexicographic(a: string, b: string)
    ensures Before(a, b) <==> exists k: nat :: DiffersFirstAt(a, b, k) && (k == |a| || a[k] < b[k])
  {
    if a != [] && b != [] && a[0] == b[0] {
      BeforeIsLexicographic(a[1..], b[1..]);
      if k: nat :| DiffersFirstAt(a[1..], b[1..], k) && (k == |a[1..]| || a[1..][k] < b[1..][k]) {
        assert a[..k + 1] == [a[0]] + a[1..][..k] && b[..k + 1] == [b[0]] + b[1..][..k];
        assert DiffersFirstAt(a, b, k + 1);
      }
      if k: nat :| DiffersFirstAt(a, b, k) && (k == |a| || a[k] < b[k]) {
        assert k > 0;
        assert a[1..][..k - 1] == a[..k][1..] && b[1..][..k - 1] == b[..k][1..];
        assert DiffersFirstAt(a[1..], b[1..], k - 1);
      }
    } else if b != [] {
      assert DiffersFirstAt(a, b, 0);
      if k: nat :| DiffersFirstAt(a, b, k) && (k == |a| || a[k] < b[k]) {
        assert k == 0;
      }
    }
  }

  /** Equal up to `k`, where the first text ends or they differ; the second goes on. */
  predicate DiffersFirstAt(a: string, b: string, k: nat) {
    k <= |a| && k < |b| && a[..k] == b[..k] && (k < |a| ==> a[k] != b[k])
  }

  lemma {:induction false} BeforeIsTotal(a: string, b: string)
    ensures a == b || Before(a, b) || Before(b, a)
    ensures !(Before(a, b) && Before(b, a))
    ensures a == b ==> !Before(a, b)
  {
    if a != [] && b != [] && a[0] == b[0] {
      BeforeIsTotal(a[1..], b[1..]);
      if a[1..] == b[1..] { assert a == [a[0]] + b[1..] == b; }
    }
  }

  lemma {:induction false} BeforeIsTransitive(a: string, b: string, c: string)
    requires Before(a, b) && Before(b, c)
    ensures Before(a, c)
  {
    if a != [] && a[0] == b[0] == c[0] {
      BeforeIsTransitive(a[1..], b[1..], c[1..]);
    }
  }
}
