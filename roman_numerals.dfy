/** The Roman notation used by the conversion service: the values of the seven
    symbols, the four digit groups of the validation pattern, the language that
    pattern accepts, a deterministic matcher for it, the left-to-right
    evaluation of a numeral and the greedy table of value/symbol pairs.
    The conversion service is proved against the definitions here. */
module RomanNumerals {
  import opened Results

  /** The value of one symbol, as in the service's symbol table; 0 stands for
      a character the table has no entry for. */
  function SymbolValue(c: char): nat {
    match c
    case 'I' => 1
    case 'V' => 5
    case 'X' => 10
    case 'L' => 50
    case 'C' => 100
    case 'D' => 500
    case 'M' => 1000
    case _ => 0
  }

  /** `k` copies of the symbol `c`. */
  function Repeat(c: char, k: nat): (r: string)
    ensures |r| == k
    ensures forall i | 0 <= i < k :: r[i] == c
  {
    if k == 0 then [] else [c] + Repeat(c, k - 1)
  }

  // ---------------------------------------------------------------------
  // Digit groups and the language of the validation pattern

  /** The four decimal digits of a number below 4000. */
  datatype Digits = Digits(thousands: nat, hundreds: nat, tens: nat, units: nat) {
    predicate InRange() {
      thousands <= 3 && hundreds <= 9 && tens <= 9 && units <= 9
    }

    function Value(): nat {
      1000 * thousands + 100 * hundreds + 10 * tens + units
    }
  }

  /** The digits of `n`. */
  function DigitsOf(n: nat): (dg: Digits)
    requires n <= 3999
    ensures dg.InRange() && dg.Value() == n
  {
    var r1 := n % 1000;
    var r2 := r1 % 100;
    Digits(n / 1000, r1 / 100, r2 / 10, r2 % 10)
  }

  /** Decimal digits are unique. */
  lemma DigitsUnique(d1: Digits, d2: Digits)
    requires d1.InRange() && d2.InRange() && d1.Value() == d2.Value()
    ensures d1 == d2
  {
    var r1 := 100 * d1.hundreds + 10 * d1.tens + d1.units;
    var r2 := 100 * d2.hundreds + 10 * d2.tens + d2.units;
    SameLeadingDigit(d1.thousands, r1, d2.thousands, r2, 1000);
    SameLeadingDigit(d1.hundreds, 10 * d1.tens + d1.units, d2.hundreds, 10 * d2.tens + d2.units, 100);
    SameLeadingDigit(d1.tens, d1.units, d2.tens, d2.units, 10);
  }

  /** Numbers below `base` that agree once `base` times a digit is added
      agree in the digit. */
  lemma SameLeadingDigit(a1: nat, r1: nat, a2: nat, r2: nat, base: nat)
    requires base in {10, 100, 1000} && r1 < base && r2 < base
    requires base * a1 + r1 == base * a2 + r2
    ensures a1 == a2 && r1 == r2
  {
    if base == 10 {
    } else if base == 100 {
    } else {
    }
  }

  /** The spelling of digit `d` in one group of the pattern
      (`CM|CD|D?C{0,3}` for one = C, five = D, ten = M). */
  function Group(d: nat, one: char, five: char, ten: char): string
    requires d <= 9
  {
    if d == 9 then [one, ten]
    else if d >= 5 then [five] + Repeat(one, d - 5)
    else if d == 4 then [one, five]
    else Repeat(one, d)
  }

  /** The numeral spelled by four digit groups: `M{0,3}`, then hundreds,
      tens and units. */
  function Numeral(dg: Digits): string
    requires dg.InRange()
  {
    Repeat('M', dg.thousands)
      + Group(dg.hundreds, 'C', 'D', 'M')
      + Group(dg.tens, 'X', 'L', 'C')
      + Group(dg.units, 'I', 'V', 'X')
  }

  /** The upper-case strings the validation pattern accepts: exactly the
      spellings of some four digits in range (the empty string included). */
  ghost predicate InPatternLanguage(u: string) {
    exists dg: Digits :: dg.InRange() && Numeral(dg) == u
  }

  /** The canonical numeral of `n`: its decimal digits spelled group by group. */
  function Roman(n: nat): string
    requires n <= 3999
  {
    Numeral(DigitsOf(n))
  }

  // ---------------------------------------------------------------------
  // Case folding

  function UpperChar(c: char): char {
    if 'a' <= c <= 'z' then (c as int - 32) as char else c
  }

  /** Upper-casing of the letters a-z; every other character is kept. */
  function Upper(s: string): string {
    seq(|s|, i requires 0 <= i < |s| => UpperChar(s[i]))
  }

  lemma UpperIdempotent(s: string)
    ensures Upper(Upper(s)) == Upper(s)
  {
  }

  // ---------------------------------------------------------------------
  // A deterministic matcher for the pattern

  /** Greedy `c{0,max}`: how many copies of `c` (at most `max`) start `u`. */
  function LeadingRun(u: string, c: char, max: nat): (k: nat)
    ensures k <= max && k <= |u|
    ensures u[..k] == Repeat(c, k)
    ensures k < max && k < |u| ==> u[k] != c
  {
    if max == 0 || |u| == 0 || u[0] != c then 0
    else 1 + LeadingRun(u[1..], c, max - 1)
  }

  /** Matches one digit group at the start of `u`, trying the alternatives in
      the pattern's order: `one ten`, `one five`, then `five? one{0,3}`. */
  function ParseGroup(u: string, one: char, five: char, ten: char): (res: (nat, string))
    ensures res.0 <= 9
    ensures Group(res.0, one, five, ten) + res.1 == u
  {
    if |u| >= 2 && u[0] == one && u[1] == ten then
      (9, u[2..])
    else if |u| >= 2 && u[0] == one && u[1] == five then
      (4, u[2..])
    else if |u| >= 1 && u[0] == five then
      var k := LeadingRun(u[1..], one, 3);
      assert u == [five] + u[1..][..k] + u[1 + k..];
      (5 + k, u[1 + k..])
    else
      var k := LeadingRun(u, one, 3);
      assert u == u[..k] + u[k..];
      (k, u[k..])
  }

  /** Matches the whole of `u` against the pattern; on success returns the
      digits the four groups spell. */
  function ParseNumeral(u: string): (r: Option<Digits>)
    ensures r.Some? ==> r.value.InRange() && Numeral(r.value) == u
  {
    var a := LeadingRun(u, 'M', 3);
    var hundreds := ParseGroup(u[a..], 'C', 'D', 'M');
    var tens := ParseGroup(hundreds.1, 'X', 'L', 'C');
    var units := ParseGroup(tens.1, 'I', 'V', 'X');
    if units.1 == [] then
      var dg := Digits(a, hundreds.0, tens.0, units.0);
      SpellingOfMatch(u, dg, hundreds.1, tens.1);
      Some(dg)
    else None
  }

  /** The four pieces the matcher consumes make up the whole input. */
  lemma SpellingOfMatch(u: string, dg: Digits, r1: string, r2: string)
    requires dg.InRange() && dg.thousands <= |u|
    requires u[..dg.thousands] == Repeat('M', dg.thousands)
    requires Group(dg.hundreds, 'C', 'D', 'M') + r1 == u[dg.thousands..]
    requires Group(dg.tens, 'X', 'L', 'C') + r2 == r1
    requires Group(dg.units, 'I', 'V', 'X') + [] == r2
    ensures Numeral(dg) == u
  {
    assert u == u[..dg.thousands] + u[dg.thousands..];
  }

  /** `s` is empty or starts with a character of `cs`. */
  predicate StartsWithin(s: string, cs: set<char>) {
    |s| == 0 || s[0] in cs
  }

  lemma {:induction false} LeadingRunOfRepeat(c: char, k: nat, rest: string, max: nat)
    requires k <= max
    requires |rest| == 0 || rest[0] != c
    ensures LeadingRun(Repeat(c, k) + rest, c, max) == k
  {
    if k > 0 {
      assert (Repeat(c, k) + rest)[1..] == Repeat(c, k - 1) + rest;
      LeadingRunOfRepeat(c, k - 1, rest, max - 1);
    }
  }

  lemma GroupStart(d: nat, one: char, five: char, ten: char, rest: string, cs: set<char>)
    requires d <= 9
    requires StartsWithin(rest, cs)
    ensures StartsWithin(Group(d, one, five, ten) + rest, cs + {one, five})
  {
  }

  /** Matching a group spelled for digit `d` gives back `d` and the rest,
      provided the rest cannot be taken for part of the group. */
  lemma ParseGroupComplete(d: nat, one: char, five: char, ten: char, rest: string)
    requires d <= 9
    requires one != five && one != ten && five != ten
    requires !StartsWithin(rest, {}) ==> rest[0] !in {one, five, ten}
    ensures ParseGroup(Group(d, one, five, ten) + rest, one, five, ten) == (d, rest)
  {
    if 5 <= d <= 8 {
      ParseFiveUpComplete(d - 5, one, five, ten, rest);
    } else if d <= 3 {
      ParseOnesComplete(d, one, five, ten, rest);
    } else {
      assert (Group(d, one, five, ten) + rest)[2..] == rest;
    }
  }

  lemma ParseFiveUpComplete(k: nat, one: char, five: char, ten: char, rest: string)
    requires k <= 3
    requires one != five && one != ten && five != ten
    requires !StartsWithin(rest, {}) ==> rest[0] !in {one, five, ten}
    ensures ParseGroup(Group(k + 5, one, five, ten) + rest, one, five, ten) == (k + 5, rest)
  {
    var u := Group(k + 5, one, five, ten) + rest;
    assert u == [five] + (Repeat(one, k) + rest);
    assert u[1..] == Repeat(one, k) + rest;
    LeadingRunOfRepeat(one, k, rest, 3);
    assert u[1 + k..] == rest;
  }

  lemma ParseOnesComplete(k: nat, one: char, five: char, ten: char, rest: string)
    requires k <= 3
    requires one != five && one != ten && five != ten
    requires !StartsWithin(rest, {}) ==> rest[0] !in {one, five, ten}
    ensures ParseGroup(Group(k, one, five, ten) + rest, one, five, ten) == (k, rest)
  {
    var u := Group(k, one, five, ten) + rest;
    assert u == Repeat(one, k) + rest;
    LeadingRunOfRepeat(one, k, rest, 3);
    assert u[k..] == rest;
  }

  /** Every spelling of four digits in range is matched, giving back the
      same digits. */
  lemma ParseNumeralComplete(dg: Digits)
    requires dg.InRange()
    ensures ParseNumeral(Numeral(dg)) == Some(dg)
  {
    var m := Repeat('M', dg.thousands);
    var h := Group(dg.hundreds, 'C', 'D', 'M');
    var t := Group(dg.tens, 'X', 'L', 'C');
    var un := Group(dg.units, 'I', 'V', 'X');
    var u := Numeral(dg);
    assert u == m + (h + (t + un));
    GroupStart(dg.units, 'I', 'V', 'X', [], {});
    assert [] + un == un;
    GroupStart(dg.tens, 'X', 'L', 'C', un, {'I', 'V'});
    GroupStart(dg.hundreds, 'C', 'D', 'M', t + un, {'I', 'V', 'X', 'L'});
    LeadingRunOfRepeat('M', dg.thousands, h + (t + un), 3);
    assert u[dg.thousands..] == h + (t + un);
    ParseGroupComplete(dg.hundreds, 'C', 'D', 'M', t + un);
    ParseGroupComplete(dg.tens, 'X', 'L', 'C', un);
    ParseGroupComplete(dg.units, 'I', 'V', 'X', []);
    assert un + [] == un;
  }

  /** The matcher accepts exactly the language of the pattern. */
  lemma ParseNumeralExact(u: string)
    ensures ParseNumeral(u).Some? <==> InPatternLanguage(u)
  {
    if InPatternLanguage(u) {
      var dg: Digits :| dg.InRange() && Numeral(dg) == u;
      ParseNumeralComplete(dg);
    }
  }

  /** Only the digits of 0 are spelled by the empty string. */
  lemma EmptyNumeral(dg: Digits)
    requires dg.InRange()
    ensures Numeral(dg) == [] <==> dg.Value() == 0
  {
    GroupEmpty(dg.hundreds, 'C', 'D', 'M');
    GroupEmpty(dg.tens, 'X', 'L', 'C');
    GroupEmpty(dg.units, 'I', 'V', 'X');
  }

  lemma GroupEmpty(d: nat, one: char, five: char, ten: char)
    requires d <= 9
    ensures |Group(d, one, five, ten)| == 0 <==> d == 0
  {
  }

  /** Two digit vectors in range never share a spelling. */
  lemma NumeralInjective(d1: Digits, d2: Digits)
    requires d1.InRange() && d2.InRange()
    requires Numeral(d1) == Numeral(d2)
    ensures d1 == d2
  {
    ParseNumeralComplete(d1);
    ParseNumeralComplete(d2);
  }

  // ---------------------------------------------------------------------
  // Left-to-right evaluation

  /** The service's scan: where a symbol is followed by a larger one, the pair
      contributes the difference and both are consumed; otherwise the symbol
      contributes its own value. */
  function ScanValue(u: string): int
    decreases |u|
  {
    if |u| == 0 then 0
    else if |u| >= 2 && SymbolValue(u[1]) != 0 && SymbolValue(u[0]) < SymbolValue(u[1]) then
      SymbolValue(u[1]) - SymbolValue(u[0]) + ScanValue(u[2..])
    else
      SymbolValue(u[0]) + ScanValue(u[1..])
  }

  /** One step of the scan from position `i`: a pair when the next symbol is
      larger, a single symbol otherwise. */
  lemma ScanStep(u: string, i: nat)
    requires i < |u|
    ensures i + 1 < |u| && SymbolValue(u[i + 1]) != 0 && SymbolValue(u[i]) < SymbolValue(u[i + 1])
      ==> ScanValue(u[i..]) == SymbolValue(u[i + 1]) - SymbolValue(u[i]) + ScanValue(u[i + 2..])
    ensures !(i + 1 < |u| && SymbolValue(u[i + 1]) != 0 && SymbolValue(u[i]) < SymbolValue(u[i + 1]))
      ==> ScanValue(u[i..]) == SymbolValue(u[i]) + ScanValue(u[i + 1..])
  {
    var rest := u[i..];
    assert rest[0] == u[i];
    if i + 1 < |u| {
      assert rest[1] == u[i + 1];
      assert rest[2..] == u[i + 2..];
    }
    assert rest[1..] == u[i + 1..];
  }

  /** Every symbol of `s` has a value in [lo, hi]. */
  predicate ValuesWithin(s: string, lo: nat, hi: nat) {
    forall i | 0 <= i < |s| :: lo <= SymbolValue(s[i]) <= hi
  }

  /** The scan of a concatenation splits when the last symbol of the left part
      is not smaller than the first symbol of the right part. */
  lemma {:induction false} ScanConcat(p: string, q: string)
    requires |p| == 0 || |q| == 0 || SymbolValue(p[|p| - 1]) >= SymbolValue(q[0])
    ensures ScanValue(p + q) == ScanValue(p) + ScanValue(q)
    decreases |p|
  {
    if |p| == 0 {
      assert p + q == q;
    } else if |p| == 1 {
      assert (p + q)[1..] == q;
      assert p[1..] == [];
    } else if SymbolValue(p[1]) != 0 && SymbolValue(p[0]) < SymbolValue(p[1]) {
      assert (p + q)[2..] == p[2..] + q;
      ScanConcat(p[2..], q);
    } else {
      assert (p + q)[1..] == p[1..] + q;
      ScanConcat(p[1..], q);
    }
  }

  lemma {:induction false} ScanRepeat(c: char, k: nat)
    requires SymbolValue(c) > 0
    ensures ScanValue(Repeat(c, k)) == k * SymbolValue(c)
  {
    if k > 0 {
      assert Repeat(c, k)[1..] == Repeat(c, k - 1);
      ScanRepeat(c, k - 1);
    }
  }

  /** The values a group's symbols take, for a group whose symbols are worth
      `unit`, 5 `unit` and 10 `unit`. */
  predicate GroupSymbols(unit: nat, one: char, five: char, ten: char) {
    unit > 0 && SymbolValue(one) == unit && SymbolValue(five) == 5 * unit
    && SymbolValue(ten) == 10 * unit
  }

  lemma ScanGroup(d: nat, unit: nat, one: char, five: char, ten: char)
    requires d <= 9 && GroupSymbols(unit, one, five, ten)
    ensures ScanValue(Group(d, one, five, ten)) == d * unit
    ensures ValuesWithin(Group(d, one, five, ten), unit, 10 * unit)
  {
    if 5 <= d <= 8 {
      ScanConcat([five], Repeat(one, d - 5));
      ScanRepeat(one, d - 5);
    } else if d <= 3 {
      ScanRepeat(one, d);
    } else {
      assert Group(d, one, five, ten)[2..] == [];
    }
  }

  lemma ValuesWithinConcat(p: string, q: string, lo: nat, hi: nat)
    requires ValuesWithin(p, lo, hi) && ValuesWithin(q, lo, hi)
    ensures ValuesWithin(p + q, lo, hi)
  {
    forall i | 0 <= i < |p + q|
      ensures lo <= SymbolValue((p + q)[i]) <= hi
    {
      if i >= |p| {
        assert (p + q)[i] == q[i - |p|];
      }
    }
  }

  /** Scanning the spelling of four digits gives the number they denote. */
  lemma ScanNumeral(dg: Digits)
    requires dg.InRange()
    ensures ScanValue(Numeral(dg)) == dg.Value()
    ensures ValuesWithin(Numeral(dg), 1, 1000)
  {
    var m := Repeat('M', dg.thousands);
    var h := Group(dg.hundreds, 'C', 'D', 'M');
    var t := Group(dg.tens, 'X', 'L', 'C');
    var un := Group(dg.units, 'I', 'V', 'X');
    assert Numeral(dg) == m + (h + (t + un));
    ScanGroup(dg.units, 1, 'I', 'V', 'X');
    ScanGroup(dg.tens, 10, 'X', 'L', 'C');
    ScanGroup(dg.hundreds, 100, 'C', 'D', 'M');
    ScanRepeat('M', dg.thousands);
    ScanConcat(t, un);
    ValuesWithinConcat(t, un, 1, 100);
    ScanConcat(h, t + un);
    ValuesWithinConcat(h, t + un, 1, 1000);
    ScanConcat(m, h + (t + un));
    ValuesWithinConcat(m, h + (t + un), 1, 1000);
  }

  /** A string of symbols is its own upper-case form. */
  lemma UpperOfSymbols(s: string)
    requires ValuesWithin(s, 1, 1000)
    ensures Upper(s) == s
  {
    forall i | 0 <= i < |s|
      ensures Upper(s)[i] == s[i]
    {
      assert SymbolValue(s[i]) >= 1;
    }
  }

  // ---------------------------------------------------------------------
  // The greedy table

  type Positive = n: nat | n > 0 witness 1

  datatype Entry = Entry(value: Positive, symbol: string)

  /** The thirteen value/symbol pairs, largest value first. */
  const Table: seq<Entry> := [
    Entry(1000, "M"), Entry(900, "CM"), Entry(500, "D"), Entry(400, "CD"),
    Entry(100, "C"), Entry(90, "XC"), Entry(50, "L"), Entry(40, "XL"),
    Entry(10, "X"), Entry(9, "IX"), Entry(5, "V"), Entry(4, "IV"), Entry(1, "I")
  ]

  /** What the greedy conversion over `table` appends from position `i` on,
      with `rem` still to convert: the current symbol as long as its value
      fits, then the following positions. The lemmas about single digit
      groups hold of any table with the right rows; the service's table is
      `Table`. */
  ghost function Greedy(table: seq<Entry>, rem: nat, i: nat): string
    requires i <= |table|
    decreases |table| - i, rem
  {
    if i == |table| then ""
    else if rem >= table[i].value then table[i].symbol + Greedy(table, rem - table[i].value, i)
    else Greedy(table, rem, i + 1)
  }

  /** A symbol whose value fits is taken. */
  lemma GreedyTake(table: seq<Entry>, rem: nat, i: nat)
    requires i < |table| && rem >= table[i].value
    ensures Greedy(table, rem, i) == table[i].symbol + Greedy(table, rem - table[i].value, i)
  {
  }

  /** A symbol whose value does not fit is passed over. */
  lemma GreedySkip(table: seq<Entry>, rem: nat, i: nat)
    requires i < |table| && rem < table[i].value
    ensures Greedy(table, rem, i) == Greedy(table, rem, i + 1)
  {
  }

  /** Up to three copies of a one-symbol entry are taken while they fit. */
  lemma GreedyRun(table: seq<Entry>, i: nat, c: char, k: nat, rem: nat)
    requires i < |table| && table[i].symbol == [c] && k <= 3 && rem < table[i].value
    ensures Greedy(table, k * table[i].value + rem, i) == Repeat(c, k) + Greedy(table, rem, i)
  {
    var v := table[i].value;
    if k == 0 {
      assert Greedy(table, k * v + rem, i) == Greedy(table, rem, i);
    } else if k == 1 {
      assert Greedy(table, k * v + rem, i) == [c] + Greedy(table, rem, i);
    } else if k == 2 {
      assert Greedy(table, k * v + rem, i) == [c] + Greedy(table, v + rem, i);
      assert Greedy(table, v + rem, i) == [c] + Greedy(table, rem, i);
    } else {
      assert Greedy(table, k * v + rem, i) == [c] + Greedy(table, 2 * v + rem, i);
      assert Greedy(table, 2 * v + rem, i) == [c] + Greedy(table, v + rem, i);
      assert Greedy(table, v + rem, i) == [c] + Greedy(table, rem, i);
    }
  }

  /** Positions `j` to `j + 3` of `table` hold 9, 5, 4 and 1 times `unit`. */
  predicate GroupRow(table: seq<Entry>, j: nat, unit: nat, one: char, five: char, ten: char) {
    && j + 3 < |table|
    && table[j].value == 9 * unit && table[j].symbol == [one, ten]
    && table[j + 1].value == 5 * unit && table[j + 1].symbol == [five]
    && table[j + 2].value == 4 * unit && table[j + 2].symbol == [one, five]
    && table[j + 3].value == unit && table[j + 3].symbol == [one]
  }

  /** At most three times `unit`, plus less than `unit`, is less than four
      times `unit`. */
  lemma BelowFourUnits(k: nat, unit: nat, rem: nat)
    requires k <= 3 && rem < unit
    ensures k * unit + rem < 4 * unit
  {
    if k == 0 {
    } else if k == 1 {
    } else if k == 2 {
    } else {
      assert k * unit == 3 * unit;
    }
  }

  /** The greedy conversion spells a digit group for one decimal digit. */
  lemma GreedyGroup(table: seq<Entry>, j: nat, unit: nat, one: char, five: char, ten: char, d: nat, rem: nat)
    requires GroupRow(table, j, unit, one, five, ten) && d <= 9 && rem < unit
    ensures Greedy(table, d * unit + rem, j) == Group(d, one, five, ten) + Greedy(table, rem, j + 4)
  {
    if d == 9 {
      GreedyNine(table, j, unit, one, five, ten, rem);
    } else if d >= 5 {
      var k := d - 5;
      GreedyFiveUp(table, j, unit, one, five, ten, k, rem);
      assert d * unit == k * unit + 5 * unit by {
        assert d == k + 5;
      }
    } else if d == 4 {
      GreedyFour(table, j, unit, one, five, ten, rem);
    } else {
      GreedyBelowFour(table, j, unit, one, five, ten, d, rem);
    }
  }

  lemma GreedyTail(table: seq<Entry>, j: nat, unit: nat, one: char, five: char, ten: char, rem: nat)
    requires GroupRow(table, j, unit, one, five, ten) && rem < unit
    ensures Greedy(table, rem, j) == Greedy(table, rem, j + 4)
  {
    assert Greedy(table, rem, j) == Greedy(table, rem, j + 1);
    assert Greedy(table, rem, j + 1) == Greedy(table, rem, j + 2);
    assert Greedy(table, rem, j + 2) == Greedy(table, rem, j + 3);
  }

  lemma GreedyNine(table: seq<Entry>, j: nat, unit: nat, one: char, five: char, ten: char, rem: nat)
    requires GroupRow(table, j, unit, one, five, ten) && rem < unit
    ensures Greedy(table, 9 * unit + rem, j) == [one, ten] + Greedy(table, rem, j + 4)
  {
    assert Greedy(table, 9 * unit + rem, j) == [one, ten] + Greedy(table, rem, j);
    GreedyTail(table, j, unit, one, five, ten, rem);
  }

  lemma GreedyFour(table: seq<Entry>, j: nat, unit: nat, one: char, five: char, ten: char, rem: nat)
    requires GroupRow(table, j, unit, one, five, ten) && rem < unit
    ensures Greedy(table, 4 * unit + rem, j) == [one, five] + Greedy(table, rem, j + 4)
  {
    var n := 4 * unit + rem;
    assert Greedy(table, n, j) == Greedy(table, n, j + 1);
    assert Greedy(table, n, j + 1) == Greedy(table, n, j + 2);
    assert Greedy(table, n, j + 2) == [one, five] + Greedy(table, rem, j + 2);
    assert Greedy(table, rem, j + 2) == Greedy(table, rem, j + 3);
  }

  lemma GreedyFiveUp(table: seq<Entry>, j: nat, unit: nat, one: char, five: char, ten: char, k: nat, rem: nat)
    requires GroupRow(table, j, unit, one, five, ten) && k <= 3 && rem < unit
    ensures Greedy(table, k * unit + 5 * unit + rem, j) == [five] + Repeat(one, k) + Greedy(table, rem, j + 4)
  {
    var m := k * unit + rem;
    BelowFourUnits(k, unit, rem);
    assert k * unit + 5 * unit + rem == m + 5 * unit;
    assert Greedy(table, m + 5 * unit, j) == Greedy(table, m + 5 * unit, j + 1);
    assert Greedy(table, m + 5 * unit, j + 1) == [five] + Greedy(table, m, j + 1);
    GreedyBelowFive(table, j, unit, one, five, ten, k, rem);
  }

  lemma GreedyBelowFour(table: seq<Entry>, j: nat, unit: nat, one: char, five: char, ten: char, k: nat, rem: nat)
    requires GroupRow(table, j, unit, one, five, ten) && k <= 3 && rem < unit
    ensures Greedy(table, k * unit + rem, j) == Repeat(one, k) + Greedy(table, rem, j + 4)
  {
    var m := k * unit + rem;
    BelowFourUnits(k, unit, rem);
    assert Greedy(table, m, j) == Greedy(table, m, j + 1);
    GreedyBelowFive(table, j, unit, one, five, ten, k, rem);
  }

  /** Below four times `unit`, the five and four rows are skipped and the
      ones row spells the rest. */
  lemma GreedyBelowFive(table: seq<Entry>, j: nat, unit: nat, one: char, five: char, ten: char, k: nat, rem: nat)
    requires GroupRow(table, j, unit, one, five, ten) && k <= 3 && rem < unit
    ensures Greedy(table, k * unit + rem, j + 1) == Repeat(one, k) + Greedy(table, rem, j + 4)
  {
    var m := k * unit + rem;
    BelowFourUnits(k, unit, rem);
    assert Greedy(table, m, j + 1) == Greedy(table, m, j + 2);
    assert Greedy(table, m, j + 2) == Greedy(table, m, j + 3);
    GreedyRun(table, j + 3, one, k, rem);
    assert Greedy(table, rem, j + 3) == Greedy(table, rem, j + 4);
  }

  /** The service's table: the thousands row, then one group of four rows
      for each of hundreds, tens and units. */
  lemma TableRows()
    ensures |Table| == 13 && Table[0] == Entry(1000, "M")
    ensures GroupRow(Table, 1, 100, 'C', 'D', 'M')
    ensures GroupRow(Table, 5, 10, 'X', 'L', 'C')
    ensures GroupRow(Table, 9, 1, 'I', 'V', 'X')
  {
  }

  /** The greedy conversion of `n` is its canonical numeral. */
  lemma GreedyIsRoman(n: nat)
    requires n <= 3999
    ensures Greedy(Table, n, 0) == Roman(n)
  {
    GreedySpellsDigits(n, DigitsOf(n));
  }

  lemma GreedySpellsDigits(n: nat, dg: Digits)
    requires dg.InRange() && dg.Value() == n
    ensures Greedy(Table, n, 0) == Numeral(dg)
  {
    var rem := dg.hundreds * 100 + dg.tens * 10 + dg.units;
    GreedyThousands(n, dg.thousands, rem);
    GreedyBelowThousand(rem, dg.hundreds, dg.tens, dg.units);
    var m, h, t, un := Repeat('M', dg.thousands), Group(dg.hundreds, 'C', 'D', 'M'),
      Group(dg.tens, 'X', 'L', 'C'), Group(dg.units, 'I', 'V', 'X');
    assert Greedy(Table, n, 0) == m + (h + t + un);
  }

  /** Past the thousands, the greedy conversion spells the hundreds, tens and
      units groups. */
  lemma GreedyBelowThousand(rem: nat, b: nat, c: nat, d: nat)
    requires b <= 9 && c <= 9 && d <= 9 && rem == b * 100 + c * 10 + d
    ensures Greedy(Table, rem, 1)
         == Group(b, 'C', 'D', 'M') + Group(c, 'X', 'L', 'C') + Group(d, 'I', 'V', 'X')
  {
    var h, t, un := Group(b, 'C', 'D', 'M'), Group(c, 'X', 'L', 'C'), Group(d, 'I', 'V', 'X');
    TableRows();
    GreedyGroup(Table, 1, 100, 'C', 'D', 'M', b, c * 10 + d);
    GreedyGroup(Table, 5, 10, 'X', 'L', 'C', c, d);
    GreedyGroup(Table, 9, 1, 'I', 'V', 'X', d, 0);
    assert d * 1 + 0 == d;
    assert Greedy(Table, 0, 13) == [];
    calc {
      Greedy(Table, b * 100 + c * 10 + d, 1);
      h + Greedy(Table, c * 10 + d, 5);
      h + (t + Greedy(Table, d, 9));
      h + (t + (un + []));
      { assert un + [] == un; }
      h + t + un;
    }
  }

  lemma GreedyThousands(n: nat, a: nat, rem: nat)
    requires a <= 3 && rem < 1000 && n == a * 1000 + rem
    ensures Greedy(Table, n, 0) == Repeat('M', a) + Greedy(Table, rem, 1)
  {
    GreedyRun(Table, 0, 'M', a, rem);
    assert Greedy(Table, rem, 0) == Greedy(Table, rem, 1);
  }
}
