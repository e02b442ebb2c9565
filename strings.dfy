/**
 * The .NET string and integer operations the patches rely on, stated as
 * functions over `seq<char>`: ordinal search, `Split`, `EndsWith`,
 * `ToLowerInvariant`, `Int32.ToString` and `Int32.Parse`. The culture-
 * sensitive ones (`EndsWith`, `ToString`, `Parse`) are modelled as the
 * invariant culture performs them, and case mapping covers ASCII only.
 */
module Strings {
  import opened Common

  // ---------------------------------------------------------------------
  // Ordinal search
  // ---------------------------------------------------------------------

  /** `pat` occurs in `s` starting at position `i`. */
  predicate Occurs(s: string, pat: string, i: int)
  {
    0 <= i && i + |pat| <= |s| && s[i..i + |pat|] == pat
  }

  /** `String.IndexOf(pat)` with ordinal comparison: the first position of `pat` in `s`. */
  function IndexOf(s: string, pat: string): (r: Option<nat>)
    ensures r.Some? ==> Occurs(s, pat, r.value)
    ensures r.Some? ==> forall j :: 0 <= j < r.value ==> !Occurs(s, pat, j)
    ensures r.None? ==> forall j :: !Occurs(s, pat, j)
    decreases |s|
  {
    if |pat| > |s| then None
    else if s[..|pat|] == pat then Some(0)
    else
      var rest := IndexOf(s[1..], pat);
      assert !Occurs(s, pat, 0) by { assert s[0..|pat|] == s[..|pat|]; }
      assert forall j :: 1 <= j ==> (Occurs(s, pat, j) <==> Occurs(s[1..], pat, j - 1)) by {
        forall j | 1 <= j ensures Occurs(s, pat, j) <==> Occurs(s[1..], pat, j - 1) {
          if j + |pat| <= |s| {
            assert s[1..][j - 1..j - 1 + |pat|] == s[j..j + |pat|];
          }
        }
      }
      match rest
      case None => None
      case Some(i) => Some(i + 1)
  }

  /** `String.Contains(pat)` (ordinal). */
  predicate Contains(s: string, pat: string)
  {
    IndexOf(s, pat).Some?
  }

  /** Contains means "occurs somewhere", in both directions. */
  lemma ContainsIff(s: string, pat: string)
    ensures Contains(s, pat) <==> exists i :: Occurs(s, pat, i)
  {
    if Contains(s, pat) {
      assert Occurs(s, pat, IndexOf(s, pat).value);
    }
  }

  /**
   * `String.EndsWith(suffix)`. .NET compares with the current culture and
   * skips ignorable code points; this is the ordinal comparison, which
   * agrees with it on texts without such code points.
   */
  predicate EndsWith(s: string, suffix: string)
  {
    |suffix| <= |s| && s[|s| - |suffix|..] == suffix
  }

  // ---------------------------------------------------------------------
  // Case mapping
  // ---------------------------------------------------------------------

  /** The lower-case form of a character (ASCII letters only). */
  function LowerChar(c: char): char
  {
    if 'A' <= c <= 'Z' then (c as int + 32) as char else c
  }

  /** `String.ToLowerInvariant()` on ASCII letters; other capitals are kept as they are. */
  function ToLowerInvariant(s: string): (r: string)
    ensures |r| == |s|
    ensures forall i :: 0 <= i < |s| ==> r[i] == LowerChar(s[i])
  {
    seq(|s|, i requires 0 <= i < |s| => LowerChar(s[i]))
  }

  /** Lower-casing distributes over concatenation. */
  lemma ToLowerInvariantConcat(a: string, b: string)
    ensures ToLowerInvariant(a + b) == ToLowerInvariant(a) + ToLowerInvariant(b)
  {
    var l, r := ToLowerInvariant(a + b), ToLowerInvariant(a) + ToLowerInvariant(b);
    assert |l| == |r|;
    forall i | 0 <= i < |l| ensures l[i] == r[i] {
      if i < |a| { assert (a + b)[i] == a[i]; } else { assert (a + b)[i] == b[i - |a|]; }
    }
  }

  // ---------------------------------------------------------------------
  // String.Split(string)
  // ---------------------------------------------------------------------

  /** The parts joined back together with `sep` between them. */
  function Join(parts: seq<string>, sep: string): string
  {
    if |parts| == 0 then ""
    else if |parts| == 1 then parts[0]
    else parts[0] + sep + Join(parts[1..], sep)
  }

  /**
   * `s.Split(sep)`: cut `s` at every occurrence of `sep`, scanning left to
   * right. The parts rebuild `s`, none of them contains `sep`, and the first
   * part is what precedes the first occurrence.
   */
  function Split(s: string, sep: string): (parts: seq<string>)
    requires sep != []
    ensures |parts| >= 1
    ensures Join(parts, sep) == s
    ensures forall k, j :: 0 <= k < |parts| ==> !Occurs(parts[k], sep, j)
    ensures parts[0] <= s
    ensures IndexOf(s, sep).Some? ==> |parts| >= 2 && |parts[0]| == IndexOf(s, sep).value
    ensures IndexOf(s, sep).None? ==> parts == [s]
    decreases |s|
  {
    match IndexOf(s, sep)
    case None => [s]
    case Some(i) =>
      var head := s[..i];
      var tail := Split(s[i + |sep|..], sep);
      assert forall j :: !Occurs(head, sep, j) by {
        forall j | Occurs(head, sep, j) ensures false {
          assert s[j..j + |sep|] == head[j..j + |sep|];
          assert Occurs(s, sep, j);
        }
      }
      assert s == head + sep + s[i + |sep|..];
      [head] + tail
  }

  /** An occurrence with none before it is what IndexOf finds. */
  lemma FirstOccurrence(s: string, pat: string, i: nat)
    requires Occurs(s, pat, i)
    requires forall j :: 0 <= j < i ==> !Occurs(s, pat, j)
    ensures IndexOf(s, pat) == Some(i)
  {
  }

  /** The first part of a split is everything before the first separator. */
  lemma SplitFirst(s: string, sep: string, i: nat)
    requires sep != [] && IndexOf(s, sep) == Some(i)
    ensures i <= |s| && Split(s, sep)[0] == s[..i]
  {
  }

  /** The second part of a split is the first part of what follows the first separator. */
  lemma SplitSecond(s: string, sep: string)
    requires sep != [] && IndexOf(s, sep).Some?
    ensures IndexOf(s, sep).value + |sep| <= |s|
    ensures Split(s, sep)[1] == Split(s[IndexOf(s, sep).value + |sep|..], sep)[0]
  {
  }

  // ---------------------------------------------------------------------
  // Decimal digits
  // ---------------------------------------------------------------------

  predicate IsDigit(c: char)
  {
    '0' <= c <= '9'
  }

  /** The character classes the ingredient pattern repeats: `[-]`, `\d` and `\D`. */
  datatype CharClass = Minus | Digit | NonDigit

  predicate InClass(c: char, cls: CharClass)
  {
    match cls
    case Minus => c == '-'
    case Digit => IsDigit(c)
    case NonDigit => !IsDigit(c)
  }

  predicate AllDigits(s: string)
  {
    forall i :: 0 <= i < |s| ==> IsDigit(s[i])
  }

  /** How many characters of `s` from position `from` on are in `cls`: a greedy `cls*`. */
  function LeadingCount(s: string, from: nat, cls: CharClass): (n: nat)
    requires from <= |s|
    ensures from + n <= |s|
    decreases |s| - from
  {
    if from == |s| || !InClass(s[from], cls) then 0 else 1 + LeadingCount(s, from + 1, cls)
  }

  /** The greedy count covers characters of `cls` only and stops at the first one outside it. */
  lemma {:induction false} LeadingCountRun(s: string, from: nat, cls: CharClass)
    requires from <= |s|
    ensures var n := LeadingCount(s, from, cls);
      && (forall i :: from <= i < from + n ==> InClass(s[i], cls))
      && (from + n < |s| ==> !InClass(s[from + n], cls))
    decreases |s| - from
  {
    if from < |s| && InClass(s[from], cls) {
      LeadingCountRun(s, from + 1, cls);
    }
  }

  /** A run of `k` characters of `cls` ended by one that is not (or by the end) is what the greedy count finds. */
  lemma {:induction false} LeadingCountIs(s: string, from: nat, k: nat, cls: CharClass)
    requires from + k <= |s|
    requires forall i :: from <= i < from + k ==> InClass(s[i], cls)
    requires from + k == |s| || !InClass(s[from + k], cls)
    ensures LeadingCount(s, from, cls) == k
    decreases k
  {
    if k > 0 {
      assert InClass(s[from], cls);
      LeadingCountIs(s, from + 1, k - 1, cls);
    }
  }

  function DigitChar(d: nat): char
    requires d < 10
  {
    ('0' as int + d) as char
  }

  function DigitValue(c: char): nat
    requires IsDigit(c)
  {
    c as int - '0' as int
  }

  /** The number a string of decimal digits denotes (most significant first). */
  function DigitsValue(s: string): nat
    requires AllDigits(s)
    decreases |s|
  {
    if s == [] then 0 else DigitsValue(s[..|s| - 1]) * 10 + DigitValue(s[|s| - 1])
  }

  /** The decimal text of a natural number: non-empty, digits only, no leading zero. */
  function NatToString(n: nat): (r: string)
    ensures |r| >= 1 && AllDigits(r)
    ensures |r| > 1 ==> r[0] != '0'
    decreases n
  {
    if n < 10 then [DigitChar(n)] else NatToString(n / 10) + [DigitChar(n % 10)]
  }

  /** `Int32.ToString()` in the invariant culture: '-' for negative numbers, then the digits. */
  function IntToString(n: int): string
  {
    if n < 0 then "-" + NatToString(-n) else NatToString(n)
  }

  /** Reading the digits NatToString writes gives the number back. */
  lemma {:induction false} NatToStringValue(n: nat)
    ensures DigitsValue(NatToString(n)) == n
    decreases n
  {
    var s := NatToString(n);
    if n >= 10 {
      NatToStringValue(n / 10);
      assert s[..|s| - 1] == NatToString(n / 10);
    }
  }

  /** The text IntToString writes starts with a minus sign exactly for negative numbers. */
  lemma IntToStringSign(n: int)
    ensures |IntToString(n)| >= 1 && (IntToString(n)[0] == '-' <==> n < 0)
  {
    if n >= 0 {
      assert IsDigit(NatToString(n)[0]);
    }
  }

  /** After the minus sign of a negative number come the digits of its magnitude. */
  lemma IntToStringMagnitude(n: int)
    requires n < 0
    ensures IntToString(n)[1..] == NatToString(-n)
  {
    assert ("-" + NatToString(-n))[1..] == NatToString(-n);
  }

  /** Different numbers have different decimal texts. */
  lemma IntToStringInjective(a: int, b: int)
    requires IntToString(a) == IntToString(b)
    ensures a == b
  {
    IntToStringSign(a);
    IntToStringSign(b);
    if a < 0 {
      IntToStringMagnitude(a);
      IntToStringMagnitude(b);
      NatToStringValue(-a);
      NatToStringValue(-b);
    } else {
      NatToStringValue(a);
      NatToStringValue(b);
    }
  }

  /** The text IntToString writes holds no space character. */
  lemma IntToStringHasNoSpace(n: int)
    ensures ' ' !in IntToString(n)
  {
    var d := NatToString(if n < 0 then -n else n);
    assert forall i :: 0 <= i < |d| ==> d[i] != ' ' by {
      forall i | 0 <= i < |d| ensures d[i] != ' ' { assert IsDigit(d[i]); }
    }
  }

  // ---------------------------------------------------------------------
  // Int32.Parse on the texts the ingredient pattern captures
  // ---------------------------------------------------------------------

  const Int32Min: int := -0x8000_0000
  const Int32Max: int := 0x7FFF_FFFF

  predicate InInt32(n: int)
  {
    Int32Min <= n <= Int32Max
  }

  /** Why `Int32.Parse` throws: a `FormatException` or an `OverflowException`. */
  datatype ParseError = FormatError | OverflowError

  /**
   * `Int32.Parse` on a text made of minus signs and digits, with the
   * invariant culture's '-' as the negative sign: at most one leading
   * sign is accepted, and the value must fit in 32 bits.
   */
  function ParseInt32(text: string): (r: Result<int, ParseError>)
    ensures r.Success? ==> InInt32(r.value)
  {
    var minus := LeadingCount(text, 0, Minus);
    var digits := text[minus..];
    if minus > 1 || digits == [] || !AllDigits(digits) then Failure(FormatError)
    else
      var v: int := if minus == 1 then -(DigitsValue(digits) as int) else DigitsValue(digits);
      if InInt32(v) then Success(v) else Failure(OverflowError)
  }

  /** What `Int32.Parse` accepts: digits, or one minus sign and digits; two leading minus signs are a format error. */
  lemma ParseInt32Shape(text: string)
    ensures LeadingCount(text, 0, Minus) > 1 ==> ParseInt32(text) == Failure(FormatError)
    ensures ParseInt32(text).Success? ==> AllDigits(text) || (text[0] == '-' && AllDigits(text[1..]))
  {
    LeadingCountRun(text, 0, Minus);
  }

  /** Parsing what IntToString writes gives the number back, for every 32-bit number. */
  lemma ParseIntToString(n: int)
    requires InInt32(n)
    ensures ParseInt32(IntToString(n)) == Success(n)
  {
    var m := if n < 0 then -n else n;
    var d := NatToString(m);
    NatToStringValue(m);
    assert !InClass(d[0], Minus) by { assert IsDigit(d[0]); }
    if n < 0 {
      assert IntToString(n)[1..] == d;
      LeadingCountIs(IntToString(n), 0, 1, Minus);
    } else {
      LeadingCountIs(d, 0, 0, Minus);
    }
  }

  /** A text of plain digits parses to its value when that fits. */
  lemma ParseDigits(text: string)
    requires text != [] && AllDigits(text) && DigitsValue(text) <= Int32Max
    ensures ParseInt32(text) == Success(DigitsValue(text))
  {
    assert !InClass(text[0], Minus) by { assert IsDigit(text[0]); }
    LeadingCountIs(text, 0, 0, Minus);
  }
}
