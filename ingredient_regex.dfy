/**
 * The ingredient-list grammar of the recipe files: the .NET pattern
 *
 *     (?<itemId>[-]*\d+) - ("\D*" ){0,1}\((?<itemAmount>\d+)\)
 *
 * matched left to right, each search starting where the previous match
 * ended, with every match turned into an (item id, amount) pair by
 * `Int32.Parse`. Digits are the ASCII digits.
 */
module IngredientRegex {
  import opened Common
  import opened Strings

  /** One match of the pattern: the text of its two named groups and the position just past it. */
  datatype RawMatch = RawMatch(itemId: string, itemAmount: string, end: nat)

  /** The text a capturing group captures: the characters of `s` from `lo` up to `hi`. */
  function Capture(s: string, lo: nat, hi: nat): (r: string)
    requires lo <= hi <= |s|
    ensures |r| == hi - lo
    decreases hi - lo
  {
    if lo == hi then [] else [s[lo]] + Capture(s, lo + 1, hi)
  }

  /** The captured text is the text of `s` between the two positions, character by character. */
  lemma {:induction false} CaptureChars(s: string, lo: nat, hi: nat)
    requires lo <= hi <= |s|
    ensures forall i :: 0 <= i < hi - lo ==> Capture(s, lo, hi)[i] == s[lo + i]
    decreases hi - lo
  {
    if lo < hi {
      CaptureChars(s, lo + 1, hi);
      var c := Capture(s, lo, hi);
      forall i | 0 <= i < hi - lo ensures c[i] == s[lo + i] {
        if i > 0 { assert c[i] == Capture(s, lo + 1, hi)[i - 1]; }
      }
    }
  }

  /** `w` stands in `s` at position `p`. */
  predicate At(s: string, w: string, p: nat)
  {
    p + |w| <= |s| && forall i :: 0 <= i < |w| ==> s[p + i] == w[i]
  }

  // ---------------------------------------------------------------------
  // Matching at one position
  // ---------------------------------------------------------------------

  /**
   * `\((?<itemAmount>\d+)\)` at position `a` of `s`: the amount's text and
   * the position just past the closing parenthesis.
   */
  function AmountAt(s: string, a: nat): (r: Option<(string, nat)>)
    ensures r.Some? ==> a + 3 <= r.value.1 <= |s|
  {
    if a < |s| && s[a] == '(' then
      var d := LeadingCount(s, a + 1, Digit);
      if d > 0 && a + 1 + d < |s| && s[a + 1 + d] == ')' then
        Some((Capture(s, a + 1, a + 1 + d), a + 2 + d))
      else None
    else None
  }

  /** What the amount part matched: '(' then the amount's digits then ')'. */
  lemma AmountAtSound(s: string, a: nat)
    requires AmountAt(s, a).Some?
    ensures var (amount, end) := AmountAt(s, a).value;
      && s[a] == '(' && s[end - 1] == ')' && amount == Capture(s, a + 1, end - 1)
      && amount != [] && AllDigits(amount)
  {
    var d := LeadingCount(s, a + 1, Digit);
    var amount := Capture(s, a + 1, a + 1 + d);
    LeadingCountRun(s, a + 1, Digit);
    CaptureChars(s, a + 1, a + 1 + d);
    forall i | 0 <= i < d ensures IsDigit(amount[i]) {
      assert InClass(s[a + 1 + i], Digit);
    }
  }

  /**
   * `"\D*" ` followed by the amount, the opening quote being at `r`: the
   * greedy `\D*` gives back one character at a time, from `k` characters
   * down to none, until the rest of the pattern matches.
   */
  function QuotedNameThenAmount(s: string, r: nat, k: nat): (m: Option<(string, nat)>)
    requires r + 1 + k <= |s|
    ensures m.Some? ==> r + 1 < m.value.1 <= |s|
    decreases k
  {
    var close := r + 1 + k;
    var here := if close + 1 < |s| && s[close] == '"' && s[close + 1] == ' ' then AmountAt(s, close + 2) else None;
    if here.Some? then here
    else if k == 0 then None
    else QuotedNameThenAmount(s, r, k - 1)
  }

  /** `("\D*" ){0,1}\((?<itemAmount>\d+)\)` at position `r`: the quoted name is tried first, then its absence. */
  function NameThenAmount(s: string, r: nat): (m: Option<(string, nat)>)
    requires r <= |s|
    ensures m.Some? ==> r < m.value.1 <= |s|
  {
    var withName :=
      if r < |s| && s[r] == '"' then QuotedNameThenAmount(s, r, LeadingCount(s, r + 1, NonDigit))
      else None;
    if withName.Some? then withName else AmountAt(s, r)
  }

  /**
   * The pattern matched at position `p` of `s`. The `[-]*` and `\d+` of the
   * id never give characters back (neither a digit nor a minus sign can stand
   * where " - " begins), so the id is the longest run of minus signs followed
   * by the longest run of digits.
   */
  function MatchAt(s: string, p: nat): (m: Option<RawMatch>)
    requires p <= |s|
    ensures m.Some? ==> p < m.value.end <= |s|
  {
    var minus := LeadingCount(s, p, Minus);
    var digits := LeadingCount(s, p + minus, Digit);
    if digits == 0 then None else MatchAfterId(s, p, p + minus + digits)
  }

  /** The rest of the pattern, ` - ` then the name and amount, once the id has taken the text from `p` up to `q`. */
  function MatchAfterId(s: string, p: nat, q: nat): (m: Option<RawMatch>)
    requires p <= q <= |s|
    ensures m.Some? ==> q < m.value.end <= |s|
  {
    if q + 3 > |s| || s[q] != ' ' || s[q + 1] != '-' || s[q + 2] != ' ' then None
    else
      match NameThenAmount(s, q + 3)
      case None => None
      case Some((amount, end)) => Some(RawMatch(Capture(s, p, q), amount, end))
  }

  /** A match can only start at a minus sign or a digit. */
  lemma MatchAtStart(s: string, p: nat)
    requires p <= |s|
    requires p == |s| || (s[p] != '-' && !IsDigit(s[p]))
    ensures MatchAt(s, p).None?
  {
  }

  /** Where a quoted name and amount succeed, the amount part matched at some position. */
  lemma {:induction false} QuotedAmountFrom(s: string, r: nat, k: nat) returns (a: nat)
    requires r + 1 + k <= |s| && QuotedNameThenAmount(s, r, k).Some?
    ensures AmountAt(s, a) == QuotedNameThenAmount(s, r, k)
    decreases k
  {
    var close := r + 1 + k;
    if close + 1 < |s| && s[close] == '"' && s[close + 1] == ' ' && AmountAt(s, close + 2).Some? {
      a := close + 2;
    } else {
      a := QuotedAmountFrom(s, r, k - 1);
    }
  }

  /** Where the name and amount part succeeds, it is the amount part that produced the result. */
  lemma AmountFrom(s: string, r: nat) returns (a: nat)
    requires r <= |s| && NameThenAmount(s, r).Some?
    ensures AmountAt(s, a) == NameThenAmount(s, r)
  {
    if r < |s| && s[r] == '"' && QuotedNameThenAmount(s, r, LeadingCount(s, r + 1, NonDigit)).Some? {
      a := QuotedAmountFrom(s, r, LeadingCount(s, r + 1, NonDigit));
    } else {
      a := r;
    }
  }

  /** The id group from `p` to `q`: its minus signs, then nothing but digits. */
  lemma IdSound(s: string, p: nat, minus: nat, q: nat)
    requires p + minus < q <= |s|
    requires LeadingCount(s, p, Minus) == minus && LeadingCount(s, p + minus, Digit) == q - p - minus
    ensures var id := Capture(s, p, q);
      minus < |id| && LeadingCount(id, 0, Minus) == minus && AllDigits(id[minus..])
  {
    var id := Capture(s, p, q);
    CaptureChars(s, p, q);
    LeadingCountRun(s, p, Minus);
    LeadingCountRun(s, p + minus, Digit);
    assert forall i :: 0 <= i < minus ==> InClass(id[i], Minus) by {
      forall i | 0 <= i < minus ensures InClass(id[i], Minus) {
        assert InClass(s[p + i], Minus);
      }
    }
    assert IsDigit(s[p + minus]);
    assert !InClass(id[minus], Minus);
    LeadingCountIs(id, 0, minus, Minus);
    forall i | 0 <= i < |id[minus..]| ensures IsDigit(id[minus..][i]) {
      assert InClass(s[p + minus + i], Digit);
    }
  }

  /**
   * What every match is: an id of minus signs then at least one digit, and
   * an amount of at least one digit closed by ')'.
   */
  lemma MatchAtSound(s: string, p: nat)
    requires p <= |s| && MatchAt(s, p).Some?
    ensures var m := MatchAt(s, p).value;
      var minus := LeadingCount(s, p, Minus);
      && m.itemAmount != [] && AllDigits(m.itemAmount) && s[m.end - 1] == ')'
      && minus < |m.itemId| && LeadingCount(m.itemId, 0, Minus) == minus && AllDigits(m.itemId[minus..])
  {
    var minus := LeadingCount(s, p, Minus);
    var q := p + minus + LeadingCount(s, p + minus, Digit);
    MatchAtIs(s, p, minus, q);
    IdSound(s, p, minus, q);
    var a := AmountFrom(s, q + 3);
    AmountAtSound(s, a);
  }

  /**
   * How `Int32.Parse` can fail on a match: never with a FormatException on
   * the amount, and with one on the id exactly when `[-]*` took more than
   * one minus sign.
   */
  lemma MatchParseErrors(s: string, p: nat)
    requires p <= |s| && MatchAt(s, p).Some?
    ensures var m := MatchAt(s, p).value;
      && ParseInt32(m.itemAmount) != Failure(FormatError)
      && (ParseInt32(m.itemId) == Failure(FormatError) <==> LeadingCount(s, p, Minus) > 1)
  {
    var m := MatchAt(s, p).value;
    MatchAtSound(s, p);
    assert !InClass(m.itemAmount[0], Minus) by { assert IsDigit(m.itemAmount[0]); }
    LeadingCountIs(m.itemAmount, 0, 0, Minus);
    assert m.itemAmount[0..] == m.itemAmount;
  }

  // ---------------------------------------------------------------------
  // Scanning the whole string
  // ---------------------------------------------------------------------

  /**
   * The (id, amount) pair of one match, as the source's object initializer
   * evaluates it: the amount is parsed first, then the id.
   */
  function MatchPair(m: RawMatch): Result<(int, int), ParseError>
  {
    match ParseInt32(m.itemAmount)
    case Failure(e) => Failure(e)
    case Success(amount) =>
      match ParseInt32(m.itemId)
      case Failure(e) => Failure(e)
      case Success(id) => Success((id, amount))
  }

  /** One match's pair in front of the pairs of the rest, failing at the first failure. */
  function Cons(p: Result<(int, int), ParseError>, rest: Result<seq<(int, int)>, ParseError>): Result<seq<(int, int)>, ParseError>
  {
    match p
    case Failure(e) => Failure(e)
    case Success(pair) =>
      match rest
      case Failure(e) => Failure(e)
      case Success(ps) => Success([pair] + ps)
  }

  /**
   * The pairs of all matches in `s` from position `p` on, in order: at each
   * position either the pattern matches and scanning resumes after the
   * match, or the position is skipped. The first number that
   * `Int32.Parse` rejects fails the list.
   */
  function PairsFrom(s: string, p: nat): Result<seq<(int, int)>, ParseError>
    requires p <= |s|
    decreases |s| - p
  {
    if p == |s| then Success([])
    else
      match MatchAt(s, p)
      case None => PairsFrom(s, p + 1)
      case Some(m) => Cons(MatchPair(m), PairsFrom(s, m.end))
  }

  /** The ingredients of a whole ingredient list. */
  function IngredientPairs(s: string): Result<seq<(int, int)>, ParseError>
  {
    PairsFrom(s, 0)
  }

  /**
   * `Regex.Match` / `Match.NextMatch`: the leftmost match that starts at or
   * after `from`, with its start position.
   */
  function NextMatch(s: string, from: nat): (r: Option<(nat, RawMatch)>)
    requires from <= |s|
    ensures r.Some? ==> from <= r.value.0 < |s| && MatchAt(s, r.value.0) == Some(r.value.1)
    ensures r.Some? ==> forall p :: from <= p < r.value.0 ==> MatchAt(s, p).None?
    ensures r.None? ==> forall p :: from <= p <= |s| ==> MatchAt(s, p).None?
    decreases |s| - from
  {
    if from == |s| then None
    else
      match MatchAt(s, from)
      case Some(m) => Some((from, m))
      case None => NextMatch(s, from + 1)
  }

  /** What the leftmost search finds is what the scan consumes next. */
  lemma {:induction false} NextMatchScan(s: string, from: nat)
    requires from <= |s|
    ensures NextMatch(s, from).None? ==> PairsFrom(s, from) == Success([])
    ensures NextMatch(s, from).Some? ==>
      var m := NextMatch(s, from).value.1;
      PairsFrom(s, from) == Cons(MatchPair(m), PairsFrom(s, m.end))
    decreases |s| - from
  {
    if from < |s| && MatchAt(s, from).None? {
      NextMatchScan(s, from + 1);
    }
  }

  // ---------------------------------------------------------------------
  // Matching depends only on the text from the position on
  // ---------------------------------------------------------------------

  lemma {:induction false} LeadingCountAppend(x: string, y: string, p: nat, cls: CharClass)
    requires p <= |y|
    ensures LeadingCount(x + y, |x| + p, cls) == LeadingCount(y, p, cls)
    decreases |y| - p
  {
    if p < |y| {
      assert (x + y)[|x| + p] == y[p];
      LeadingCountAppend(x, y, p + 1, cls);
    }
  }

  lemma CaptureAppend(x: string, y: string, lo: nat, hi: nat)
    requires lo <= hi <= |y|
    ensures Capture(x + y, |x| + lo, |x| + hi) == Capture(y, lo, hi)
  {
    var c, d := Capture(x + y, |x| + lo, |x| + hi), Capture(y, lo, hi);
    CaptureChars(x + y, |x| + lo, |x| + hi);
    CaptureChars(y, lo, hi);
    forall i | 0 <= i < |c| ensures c[i] == d[i] {
      assert (x + y)[|x| + lo + i] == y[lo + i];
    }
  }

  /** An optional (text, end) result with its end position moved on by `k`. */
  function ShiftEnd(o: Option<(string, nat)>, k: nat): Option<(string, nat)>
  {
    match o
    case None => None
    case Some((t, end)) => Some((t, end + k))
  }

  lemma AmountAtAppend(x: string, y: string, a: nat)
    requires a <= |y|
    ensures AmountAt(x + y, |x| + a) == ShiftEnd(AmountAt(y, a), |x|)
  {
    if a < |y| {
      assert (x + y)[|x| + a] == y[a];
      LeadingCountAppend(x, y, a + 1, Digit);
      var d := LeadingCount(y, a + 1, Digit);
      if a + 1 + d < |y| {
        assert (x + y)[|x| + a + 1 + d] == y[a + 1 + d];
        CaptureAppend(x, y, a + 1, a + 1 + d);
      }
    }
  }

  lemma {:induction false} QuotedNameThenAmountAppend(x: string, y: string, r: nat, k: nat)
    requires r + 1 + k <= |y|
    ensures QuotedNameThenAmount(x + y, |x| + r, k) == ShiftEnd(QuotedNameThenAmount(y, r, k), |x|)
    decreases k
  {
    var close := r + 1 + k;
    if close + 1 < |y| {
      assert (x + y)[|x| + close] == y[close];
      assert (x + y)[|x| + close + 1] == y[close + 1];
      AmountAtAppend(x, y, close + 2);
    }
    if k > 0 {
      QuotedNameThenAmountAppend(x, y, r, k - 1);
    }
  }

  lemma NameThenAmountAppend(x: string, y: string, r: nat)
    requires r <= |y|
    ensures NameThenAmount(x + y, |x| + r) == ShiftEnd(NameThenAmount(y, r), |x|)
  {
    AmountAtAppend(x, y, r);
    if r < |y| {
      assert (x + y)[|x| + r] == y[r];
      LeadingCountAppend(x, y, r + 1, NonDigit);
      QuotedNameThenAmountAppend(x, y, r, LeadingCount(y, r + 1, NonDigit));
    }
  }

  /** The id part of the pattern finds the same run after `x` as in `y` alone. */
  lemma IdAppend(x: string, y: string, p: nat)
    requires p <= |y|
    ensures var minus := LeadingCount(y, p, Minus);
      && LeadingCount(x + y, |x| + p, Minus) == minus
      && LeadingCount(x + y, |x| + p + minus, Digit) == LeadingCount(y, p + minus, Digit)
  {
    LeadingCountAppend(x, y, p, Minus);
    LeadingCountAppend(x, y, p + LeadingCount(y, p, Minus), Digit);
  }

  /** A match moved `d` positions to the right. */
  function ShiftMatch(o: Option<RawMatch>, d: nat): Option<RawMatch>
  {
    match o
    case None => None
    case Some(m) => Some(m.(end := m.end + d))
  }

  /** A match of the text after `x` is the same match in `x + y`, shifted by `|x|`. */
  lemma MatchAtAppend(x: string, y: string, p: nat)
    requires p <= |y|
    ensures MatchAt(x + y, |x| + p) == ShiftMatch(MatchAt(y, p), |x|)
  {
    IdAppend(x, y, p);
    var minus := LeadingCount(y, p, Minus);
    var q := p + minus + LeadingCount(y, p + minus, Digit);
    MatchAtIs(y, p, minus, q);
    MatchAtIs(x + y, |x| + p, minus, |x| + q);
    MatchAfterIdAppend(x, y, p, q);
  }

  /** The match at `p` once the runs of minus signs and digits there are known. */
  lemma MatchAtIs(s: string, p: nat, minus: nat, q: nat)
    requires p + minus <= q <= |s|
    requires LeadingCount(s, p, Minus) == minus && LeadingCount(s, p + minus, Digit) == q - p - minus
    ensures MatchAt(s, p) == if q == p + minus then None else MatchAfterId(s, p, q)
  {
  }

  /** The rest of the pattern after the id does not look before the id. */
  lemma MatchAfterIdAppend(x: string, y: string, p: nat, q: nat)
    requires p <= q <= |y|
    ensures MatchAfterId(x + y, |x| + p, |x| + q) == ShiftMatch(MatchAfterId(y, p, q), |x|)
  {
    if q + 3 <= |y| {
      assert (x + y)[|x| + q] == y[q];
      assert (x + y)[|x| + q + 1] == y[q + 1];
      assert (x + y)[|x| + q + 2] == y[q + 2];
      NameThenAmountAppend(x, y, q + 3);
      CaptureAppend(x, y, p, q);
    }
  }

  /** Every match recorded in a table of matches, one entry per position, ends after its position and within the table. */
  predicate EndsWithin(t: seq<Option<RawMatch>>)
  {
    forall q :: 0 <= q < |t| && t[q].Some? ==> q < t[q].value.end <= |t|
  }

  /** The scan of PairsFrom, over a table holding the match at each position. */
  function Scan(t: seq<Option<RawMatch>>, p: nat): Result<seq<(int, int)>, ParseError>
    requires p <= |t| && EndsWithin(t)
    decreases |t| - p
  {
    if p == |t| then Success([])
    else
      match t[p]
      case None => Scan(t, p + 1)
      case Some(m) => Cons(MatchPair(m), Scan(t, m.end))
  }

  /** `t` holds the match at each position of `s`. */
  predicate Tabulates(t: seq<Option<RawMatch>>, s: string)
  {
    |t| == |s| && forall q {:trigger MatchAt(s, q)} :: 0 <= q < |s| ==> t[q] == MatchAt(s, q)
  }

  /** The table of the matches at each position of `s`. */
  lemma TableOf(s: string) returns (t: seq<Option<RawMatch>>)
    ensures Tabulates(t, s) && EndsWithin(t)
  {
    t := seq(|s|, q requires 0 <= q < |s| => MatchAt(s, q));
  }

  /** Scanning a text is scanning the table of its matches. */
  lemma {:induction false} ScanOfTable(s: string, t: seq<Option<RawMatch>>, p: nat)
    requires p <= |s| && Tabulates(t, s) && EndsWithin(t)
    ensures PairsFrom(s, p) == Scan(t, p)
    decreases |s| - p
  {
    if p < |s| {
      match MatchAt(s, p)
      case None =>
        ScanOfTable(s, t, p + 1);
      case Some(m) =>
        ScanOfTable(s, t, m.end);
    }
  }

  /** Table `u` ends with table `t`, the matches moved `d` positions to the right. */
  predicate Shifted(u: seq<Option<RawMatch>>, t: seq<Option<RawMatch>>, d: nat)
  {
    |u| == d + |t| && forall q :: 0 <= q < |t| ==> u[d + q] == ShiftMatch(t[q], d)
  }

  /** Two tables that agree up to a shift are scanned into the same pairs. */
  lemma {:induction false} ScanShifted(u: seq<Option<RawMatch>>, t: seq<Option<RawMatch>>, d: nat, p: nat)
    requires p <= |t| && EndsWithin(u) && EndsWithin(t) && Shifted(u, t, d)
    ensures Scan(u, d + p) == Scan(t, p)
    decreases |t| - p
  {
    if p < |t| {
      assert u[d + p] == ShiftMatch(t[p], d);
      match t[p]
      case None =>
        ScanShifted(u, t, d, p + 1);
      case Some(m) =>
        ScanShifted(u, t, d, m.end);
    }
  }

  /** The table of the matches of `s`, whose scan from `p` is the scan of `s` from `p`. */
  lemma ScannedTable(s: string, p: nat) returns (t: seq<Option<RawMatch>>)
    requires p <= |s|
    ensures Tabulates(t, s) && EndsWithin(t)
    ensures PairsFrom(s, p) == Scan(t, p)
  {
    t := TableOf(s);
    ScanOfTable(s, t, p);
  }

  /** The tables of `x + y` and of `y`: the second is the end of the first, shifted. */
  lemma ShiftedTables(x: string, y: string, u: seq<Option<RawMatch>>, t: seq<Option<RawMatch>>)
    requires Tabulates(u, x + y) && Tabulates(t, y)
    ensures Shifted(u, t, |x|)
  {
    forall q | 0 <= q < |y| ensures u[|x| + q] == ShiftMatch(t[q], |x|) {
      MatchAtAppend(x, y, q);
    }
  }

  /** The ingredients from a position on depend only on the text from there on. */
  lemma PairsFromAppend(x: string, y: string, p: nat)
    requires p <= |y|
    ensures PairsFrom(x + y, |x| + p) == PairsFrom(y, p)
  {
    var u := ScannedTable(x + y, |x| + p);
    var t := ScannedTable(y, p);
    ShiftedTables(x, y, u, t);
    ScanShifted(u, t, |x|, p);
  }

  /** Scanning from a position is scanning the rest of the text on its own. */
  lemma PairsFromSuffix(s: string, p: nat)
    requires p <= |s|
    ensures PairsFrom(s, p) == IngredientPairs(s[p..])
  {
    assert s == s[..p] + s[p..];
    PairsFromAppend(s[..p], s[p..], 0);
  }

  // ---------------------------------------------------------------------
  // Ingredient tokens
  // ---------------------------------------------------------------------

  /** `n` minus signs. */
  function Minuses(n: nat): (r: string)
    ensures |r| == n
  {
    if n == 0 then "" else "-" + Minuses(n - 1)
  }

  /** Every character of `Minuses(n)` is a minus sign. */
  lemma {:induction false} MinusesChars(n: nat)
    ensures forall i :: 0 <= i < n ==> Minuses(n)[i] == '-'
  {
    if n > 0 {
      MinusesChars(n - 1);
      forall i | 0 <= i < n ensures Minuses(n)[i] == '-' {
        if i > 0 { assert Minuses(n)[i] == Minuses(n - 1)[i - 1]; }
      }
    }
  }

  /** The optional `"name" ` part of a token. */
  function NamePart(name: Option<string>): string
  {
    match name
    case None => ""
    case Some(n) => "\"" + n + "\" "
  }

  /** One ingredient as written in a recipe file: `<minus signs><digits> - ["name" ](<amount>)`. */
  function Token(minus: nat, digits: string, name: Option<string>, amount: string): string
  {
    Minuses(minus) + digits + " - " + NamePart(name) + "(" + amount + ")"
  }

  predicate DigitFree(s: string)
  {
    forall i :: 0 <= i < |s| ==> !IsDigit(s[i])
  }

  /** A text standing at `p` is its first half at `p`, then its second half. */
  lemma AtConcat(s: string, x: string, y: string, p: nat)
    ensures At(s, x + y, p) <==> At(s, x, p) && At(s, y, p + |x|)
  {
    if At(s, x + y, p) {
      forall i | 0 <= i < |x| ensures s[p + i] == x[i] {
        assert (x + y)[i] == x[i];
      }
      forall i | 0 <= i < |y| ensures s[p + |x| + i] == y[i] {
        assert (x + y)[|x| + i] == y[i];
      }
    }
    if At(s, x, p) && At(s, y, p + |x|) {
      forall i | 0 <= i < |x + y| ensures s[p + i] == (x + y)[i] {
        if i < |x| { assert s[p + i] == x[i]; } else { assert s[p + |x| + (i - |x|)] == y[i - |x|]; }
      }
    }
  }

  /** One character of a text standing at `p`. */
  lemma CharAt(s: string, w: string, p: nat, i: nat)
    requires At(s, w, p) && i < |w|
    ensures s[p + i] == w[i]
  {
  }

  /** A text of `cls` characters standing at `p`, followed by a character outside `cls`, is what the greedy count finds. */
  lemma RunOf(s: string, w: string, p: nat, cls: CharClass)
    requires At(s, w, p)
    requires forall i :: 0 <= i < |w| ==> InClass(w[i], cls)
    requires p + |w| < |s| && !InClass(s[p + |w|], cls)
    ensures LeadingCount(s, p, cls) == |w|
  {
    forall i | p <= i < p + |w| ensures InClass(s[i], cls) {
      CharAt(s, w, p, i - p);
    }
    LeadingCountIs(s, p, |w|, cls);
  }

  /** A text standing at `p` is what a group spanning it captures. */
  lemma CaptureOf(s: string, w: string, p: nat)
    requires At(s, w, p)
    ensures Capture(s, p, p + |w|) == w
  {
    var c := Capture(s, p, p + |w|);
    CaptureChars(s, p, p + |w|);
    forall i | 0 <= i < |w| ensures c[i] == w[i] {
      CharAt(s, w, p, i);
    }
  }

  /** Where the pieces of a token stand when the token stands at `p`. */
  lemma TokenLayout(s: string, p: nat, minus: nat, digits: string, name: Option<string>, amount: string)
    requires At(s, Token(minus, digits, name, amount), p)
    ensures var q := p + minus + |digits|;
      var a := q + 3 + |NamePart(name)|;
      var e := a + 1 + |amount|;
      && |Token(minus, digits, name, amount)| == e + 1 - p
      && At(s, Minuses(minus), p) && At(s, digits, p + minus)
      && s[q] == ' ' && s[q + 1] == '-' && s[q + 2] == ' '
      && At(s, NamePart(name), q + 3)
      && s[a] == '(' && At(s, amount, a + 1) && s[e] == ')'
  {
    var np := NamePart(name);
    var id := Minuses(minus) + digits;
    var q := p + minus + |digits|;
    var a := q + 3 + |np|;
    AtConcat(s, id + " - " + np + "(" + amount, ")", p);
    AtConcat(s, id + " - " + np + "(", amount, p);
    AtConcat(s, id + " - " + np, "(", p);
    AtConcat(s, id + " - ", np, p);
    AtConcat(s, id, " - ", p);
    AtConcat(s, Minuses(minus), digits, p);
    CharAt(s, " - ", q, 0);
    CharAt(s, " - ", q, 1);
    CharAt(s, " - ", q, 2);
    CharAt(s, "(", a, 0);
    CharAt(s, ")", a + 1 + |amount|, 0);
  }

  /** The id of a token: `[-]*` takes exactly its minus signs and `\d+` exactly its digits. */
  lemma IdRun(s: string, p: nat, minus: nat, digits: string)
    requires digits != [] && AllDigits(digits)
    requires At(s, Minuses(minus), p) && At(s, digits, p + minus)
    requires p + minus + |digits| < |s| && s[p + minus + |digits|] == ' '
    ensures LeadingCount(s, p, Minus) == minus
    ensures LeadingCount(s, p + minus, Digit) == |digits|
  {
    CharAt(s, digits, p + minus, 0);
    MinusesChars(minus);
    RunOf(s, Minuses(minus), p, Minus);
    RunOf(s, digits, p + minus, Digit);
  }

  /** Two texts standing one after the other, ending at `end`, are what a group spanning both captures. */
  lemma CaptureOfConcat(s: string, x: string, y: string, p: nat, end: nat)
    requires At(s, x, p) && At(s, y, p + |x|) && end == p + |x| + |y|
    ensures end <= |s|
    ensures Capture(s, p, end) == x + y
  {
    AtConcat(s, x, y, p);
    CaptureOf(s, x + y, p);
  }

  /** The amount of a token: `\((\d+)\)` matches it exactly. */
  lemma AmountRun(s: string, a: nat, amount: string)
    requires amount != [] && AllDigits(amount)
    requires a < |s| && s[a] == '(' && At(s, amount, a + 1)
    requires a + 1 + |amount| < |s| && s[a + 1 + |amount|] == ')'
    ensures AmountAt(s, a) == Some((amount, a + 2 + |amount|))
  {
    RunOf(s, amount, a + 1, Digit);
    CaptureOf(s, amount, a + 1);
  }

  /**
   * A quoted name: `\D*` first takes the name, the closing quote, the space
   * and '(' (up to the amount's first digit), then gives back three
   * characters, and the quoted form matches when the amount does.
   */
  lemma QuotedRun(s: string, r: nat, n: string)
    requires DigitFree(n)
    requires At(s, NamePart(Some(n)), r)
    requires r + |n| + 4 < |s| && s[r + |n| + 3] == '(' && IsDigit(s[r + |n| + 4])
    requires AmountAt(s, r + |n| + 3).Some?
    ensures NameThenAmount(s, r) == AmountAt(s, r + |n| + 3)
  {
    var np := NamePart(Some(n));
    CharAt(s, np, r, 0);
    CharAt(s, np, r, |n| + 1);
    CharAt(s, np, r, |n| + 2);
    forall i | r + 1 <= i < r + |n| + 4 ensures InClass(s[i], NonDigit) {
      if i < r + 1 + |n| {
        CharAt(s, np, r, i - r);
        assert np[i - r] == n[i - r - 1];
      }
    }
    LeadingCountIs(s, r + 1, |n| + 3, NonDigit);
    assert QuotedNameThenAmount(s, r, |n| + 3) == QuotedNameThenAmount(s, r, |n| + 2);
    assert QuotedNameThenAmount(s, r, |n| + 2) == QuotedNameThenAmount(s, r, |n| + 1);
    assert QuotedNameThenAmount(s, r, |n| + 1) == QuotedNameThenAmount(s, r, |n|);
  }

  /** The optional quoted name and the amount of a token: matched exactly, with or without the name. */
  lemma NameAndAmountRun(s: string, r: nat, name: Option<string>, amount: string)
    requires amount != [] && AllDigits(amount)
    requires name.Some? ==> DigitFree(name.value)
    requires At(s, NamePart(name), r)
    requires var a := r + |NamePart(name)|;
      a + 1 + |amount| < |s| && s[a] == '(' && At(s, amount, a + 1) && s[a + 1 + |amount|] == ')'
    ensures NameThenAmount(s, r) == Some((amount, r + |NamePart(name)| + 2 + |amount|))
  {
    var a := r + |NamePart(name)|;
    AmountRun(s, a, amount);
    match name
    case None =>
      assert NameThenAmount(s, r) == AmountAt(s, a);
    case Some(n) =>
      CharAt(s, amount, a + 1, 0);
      QuotedRun(s, r, n);
  }

  /** A well-formed token where the scan stands is matched exactly, whatever follows it. */
  lemma MatchToken(s: string, p: nat, minus: nat, digits: string, name: Option<string>, amount: string)
    requires digits != [] && AllDigits(digits)
    requires amount != [] && AllDigits(amount)
    requires name.Some? ==> DigitFree(name.value)
    requires At(s, Token(minus, digits, name, amount), p)
    ensures MatchAt(s, p) == Some(RawMatch(Minuses(minus) + digits, amount, p + |Token(minus, digits, name, amount)|))
  {
    TokenId(s, p, minus, digits, name, amount);
    TokenNameAndAmount(s, p, minus, digits, name, amount);
    var q := p + minus + |digits|;
    MatchOfParts(s, p, minus, q, Minuses(minus) + digits, amount, p + |Token(minus, digits, name, amount)|);
  }

  /** What the id part of the pattern, and the ` - ` after it, find in a well-formed token. */
  lemma TokenId(s: string, p: nat, minus: nat, digits: string, name: Option<string>, amount: string)
    requires digits != [] && AllDigits(digits)
    requires At(s, Token(minus, digits, name, amount), p)
    ensures var q := p + minus + |digits|;
      && q + 3 <= |s| && s[q] == ' ' && s[q + 1] == '-' && s[q + 2] == ' '
      && LeadingCount(s, p, Minus) == minus && LeadingCount(s, p + minus, Digit) == |digits|
      && Capture(s, p, q) == Minuses(minus) + digits
  {
    TokenLayout(s, p, minus, digits, name, amount);
    IdRun(s, p, minus, digits);
    var signs := Minuses(minus);
    assert |signs| == minus;
    CaptureOfConcat(s, signs, digits, p, p + minus + |digits|);
  }

  /** What the name and amount part of the pattern finds in a well-formed token. */
  lemma TokenNameAndAmount(s: string, p: nat, minus: nat, digits: string, name: Option<string>, amount: string)
    requires amount != [] && AllDigits(amount)
    requires name.Some? ==> DigitFree(name.value)
    requires At(s, Token(minus, digits, name, amount), p)
    ensures p + minus + |digits| + 3 <= |s|
    ensures NameThenAmount(s, p + minus + |digits| + 3) == Some((amount, p + |Token(minus, digits, name, amount)|))
  {
    TokenLayout(s, p, minus, digits, name, amount);
    NameAndAmountRun(s, p + minus + |digits| + 3, name, amount);
  }

  /** The match at `p` put together from its parts: the id up to `q`, ` - `, then the name and amount. */
  lemma MatchOfParts(s: string, p: nat, minus: nat, q: nat, id: string, amount: string, end: nat)
    requires p + minus < q <= |s|
    requires LeadingCount(s, p, Minus) == minus && LeadingCount(s, p + minus, Digit) == q - p - minus
    requires q + 3 <= |s| && s[q] == ' ' && s[q + 1] == '-' && s[q + 2] == ' '
    requires NameThenAmount(s, q + 3) == Some((amount, end))
    requires Capture(s, p, q) == id
    ensures MatchAt(s, p) == Some(RawMatch(id, amount, end))
  {
  }

  /** A token where the scan stands contributes its pair, and the scan resumes right after it. */
  lemma PairsOfToken(s: string, p: nat, minus: nat, digits: string, name: Option<string>, amount: string, end: nat)
    requires digits != [] && AllDigits(digits)
    requires amount != [] && AllDigits(amount)
    requires name.Some? ==> DigitFree(name.value)
    requires At(s, Token(minus, digits, name, amount), p)
    requires end == p + |Token(minus, digits, name, amount)|
    ensures end <= |s|
    ensures PairsFrom(s, p) == Cons(MatchPair(RawMatch(Minuses(minus) + digits, amount, end)), PairsFrom(s, end))
  {
    MatchToken(s, p, minus, digits, name, amount);
  }

  /** A text stands at the start of itself followed by anything. */
  lemma AtStart(x: string, y: string)
    ensures At(x + y, x, 0)
  {
    forall i | 0 <= i < |x| ensures (x + y)[0 + i] == x[i] { }
  }

  /** A token in front of the rest of a list contributes its pair in front of the rest's pairs. */
  lemma PairsOfLeadingToken(minus: nat, digits: string, name: Option<string>, amount: string, rest: string)
    requires digits != [] && AllDigits(digits)
    requires amount != [] && AllDigits(amount)
    requires name.Some? ==> DigitFree(name.value)
    ensures var tok := Token(minus, digits, name, amount);
      IngredientPairs(tok + rest) == Cons(MatchPair(RawMatch(Minuses(minus) + digits, amount, |tok|)), IngredientPairs(rest))
  {
    var tok := Token(minus, digits, name, amount);
    AtStart(tok, rest);
    PairsOfToken(tok + rest, 0, minus, digits, name, amount, |tok|);
    LeadingPairs(tok, rest, RawMatch(Minuses(minus) + digits, amount, |tok|));
  }

  /** A match spanning a whole leading text contributes its pair in front of the pairs of what follows. */
  lemma LeadingPairs(tok: string, rest: string, m: RawMatch)
    requires PairsFrom(tok + rest, 0) == Cons(MatchPair(m), PairsFrom(tok + rest, |tok|))
    ensures IngredientPairs(tok + rest) == Cons(MatchPair(m), IngredientPairs(rest))
  {
    PairsFromAppend(tok, rest, 0);
  }

  /** The quoted item name has no effect on the parsed ingredients. */
  lemma NameIsIgnored(minus: nat, digits: string, name: string, amount: string, rest: string)
    requires digits != [] && AllDigits(digits)
    requires amount != [] && AllDigits(amount)
    requires DigitFree(name)
    ensures IngredientPairs(Token(minus, digits, Some(name), amount) + rest)
         == IngredientPairs(Token(minus, digits, None, amount) + rest)
  {
    PairsOfLeadingToken(minus, digits, Some(name), amount, rest);
    PairsOfLeadingToken(minus, digits, None, amount, rest);
  }

  /** Text in which no match can start (no minus sign, no digit) is skipped. */
  lemma {:induction false} SkipsUnmatchedText(s: string, p: nat, n: nat)
    requires p + n <= |s|
    requires forall i :: p <= i < p + n ==> s[i] != '-' && !IsDigit(s[i])
    ensures PairsFrom(s, p) == PairsFrom(s, p + n)
    decreases n
  {
    if n > 0 {
      MatchAtStart(s, p);
      SkipsUnmatchedText(s, p + 1, n - 1);
    }
  }

  /** The same, for a text in front of the rest of the list. */
  lemma SkipsUnmatchedPrefix(junk: string, rest: string)
    requires forall i :: 0 <= i < |junk| ==> junk[i] != '-' && !IsDigit(junk[i])
    ensures IngredientPairs(junk + rest) == IngredientPairs(rest)
  {
    var s := junk + rest;
    assert forall i :: 0 <= i < |junk| ==> s[i] == junk[i];
    SkipsUnmatchedText(s, 0, |junk|);
    PairsFromAppend(junk, rest, 0);
  }

  /**
   * An id written with two or more minus signs (which `[-]*` accepts) makes
   * `Int32.Parse` throw a FormatException, failing the whole list, unless
   * the amount before it already overflowed.
   */
  lemma RepeatedMinusFails(minus: nat, digits: string, name: Option<string>, amount: string, rest: string)
    requires minus >= 2
    requires digits != [] && AllDigits(digits)
    requires amount != [] && AllDigits(amount) && DigitsValue(amount) <= Int32Max
    requires name.Some? ==> DigitFree(name.value)
    ensures IngredientPairs(Token(minus, digits, name, amount) + rest) == Failure(FormatError)
  {
    PairsOfLeadingToken(minus, digits, name, amount, rest);
    ParseDigits(amount);
    var id := Minuses(minus) + digits;
    MinusesChars(minus);
    assert id[0] == '-' && id[1] == '-';
    assert LeadingCount(id, 0, Minus) == 1 + LeadingCount(id, 1, Minus);
    assert LeadingCount(id, 1, Minus) == 1 + LeadingCount(id, 2, Minus);
  }

  // ---------------------------------------------------------------------
  // Writing an ingredient list and reading it back
  // ---------------------------------------------------------------------

  /** An ingredient in the form recipe files use: `<id> - (<amount>)`. */
  function FormatIngredient(id: int, amount: nat): string
  {
    IntToString(id) + " - (" + NatToString(amount) + ")"
  }

  /** A list of ingredients, each followed by ", ". */
  function FormatIngredients(ps: seq<(int, nat)>): string
  {
    if ps == [] then "" else FormatIngredient(ps[0].0, ps[0].1) + ", " + FormatIngredients(ps[1..])
  }

  predicate Writable(ps: seq<(int, nat)>)
  {
    forall i :: 0 <= i < |ps| ==> InInt32(ps[i].0) && ps[i].1 <= Int32Max
  }

  function AsPairs(ps: seq<(int, nat)>): (r: seq<(int, int)>)
    ensures |r| == |ps| && forall i :: 0 <= i < |ps| ==> r[i] == (ps[i].0, ps[i].1 as int)
  {
    if ps == [] then [] else [(ps[0].0, ps[0].1 as int)] + AsPairs(ps[1..])
  }

  /** The number of minus signs and the digits IntToString writes for `id`. */
  function SignCount(id: int): nat
  {
    if id < 0 then 1 else 0
  }

  function Magnitude(id: int): nat
  {
    if id < 0 then -id else id
  }

  /** IntToString writes a sign run and the magnitude's digits. */
  lemma IdText(id: int)
    ensures Minuses(SignCount(id)) + NatToString(Magnitude(id)) == IntToString(id)
  {
    if id < 0 {
      assert Minuses(1) == "-";
    } else {
      assert Minuses(0) == "";
    }
  }

  /** A written ingredient is a token without a name. */
  lemma FormattedIngredientIsToken(id: int, amount: nat)
    ensures FormatIngredient(id, amount) == Token(SignCount(id), NatToString(Magnitude(id)), None, NatToString(amount))
  {
    IdText(id);
    var i, n := IntToString(id), NatToString(amount);
    assert i + " - (" + n + ")" == i + " - " + "" + "(" + n + ")";
  }

  /** The pair of a written ingredient reads back as the ingredient. */
  lemma FormattedIngredientPair(id: int, amount: nat, end: nat)
    requires InInt32(id) && amount <= Int32Max
    ensures MatchPair(RawMatch(IntToString(id), NatToString(amount), end)) == Success((id, amount as int))
  {
    NatToStringValue(amount);
    ParseDigits(NatToString(amount));
    ParseIntToString(id);
  }

  /** Parsing a written ingredient list gives back exactly its ingredients, in order. */
  lemma {:induction false} ParseFormatted(ps: seq<(int, nat)>)
    requires Writable(ps)
    ensures IngredientPairs(FormatIngredients(ps)) == Success(AsPairs(ps))
    decreases |ps|
  {
    if ps != [] {
      var (id, amount) := ps[0];
      var tok := Token(SignCount(id), NatToString(Magnitude(id)), None, NatToString(amount));
      FormattedIngredientIsToken(id, amount);
      IdText(id);
      FormattedIngredientPair(id, amount, |tok|);
      var rest := FormatIngredients(ps[1..]);
      assert FormatIngredients(ps) == tok + (", " + rest);
      PairsOfLeadingToken(SignCount(id), NatToString(Magnitude(id)), None, NatToString(amount), ", " + rest);
      SkipsUnmatchedPrefix(", ", rest);
      assert Writable(ps[1..]) by {
        forall i | 0 <= i < |ps[1..]| ensures InInt32(ps[1..][i].0) && ps[1..][i].1 <= Int32Max {
          assert ps[1..][i] == ps[i + 1];
        }
      }
      ParseFormatted(ps[1..]);
    }
  }
}
