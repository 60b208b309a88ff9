/**
 * The chapter number in its three spellings: decimal digits, English words
 * and Roman numerals, and the choice between them by the name of the
 * numbering style. Each spelling comes with a reader that recovers the
 * number from the text.
 */
module Numbering {
  import opened Markup

  // ----- decimal digits: Python's `str(n)` -----

  predicate IsDigit(c: char) {
    '0' <= c <= '9'
  }

  predicate AllDigits(s: string) {
    forall k :: 0 <= k < |s| ==> IsDigit(s[k])
  }

  function DigitChar(d: nat): (c: char)
    requires d < 10
    ensures IsDigit(c) && c as int - '0' as int == d
  {
    ('0' as int + d) as char
  }

  /** `str(n)` for a non-negative integer: digits only, no leading zero. */
  function NatToString(n: nat): (s: string)
    ensures s != [] && AllDigits(s)
    ensures s[0] == '0' ==> s == "0"
    decreases n
  {
    if n < 10 then [DigitChar(n)] else NatToString(n / 10) + [DigitChar(n % 10)]
  }

  function DecimalValue(s: string): nat
    requires AllDigits(s)
  {
    if s == [] then 0 else 10 * DecimalValue(s[..|s| - 1]) + (s[|s| - 1] as int - '0' as int)
  }

  /** `int(s)` restricted to plain digit strings. */
  function ParseDecimal(s: string): (r: Option<nat>)
    ensures r.Some? <==> s != [] && AllDigits(s)
  {
    if s != [] && AllDigits(s) then Some(DecimalValue(s)) else None
  }

  lemma {:induction false} NatToStringRoundTrip(n: nat)
    ensures ParseDecimal(NatToString(n)) == Some(n)
    decreases n
  {
    var s := NatToString(n);
    if n >= 10 {
      NatToStringRoundTrip(n / 10);
      assert s[..|s| - 1] == NatToString(n / 10);
      assert s[|s| - 1] as int - '0' as int == n % 10;
      assert DecimalValue(s) == 10 * (n / 10) + n % 10;
    }
  }

  // ----- English words: `number_to_words` -----

  const Ones: seq<string> := ["", "One", "Two", "Three", "Four", "Five", "Six", "Seven", "Eight", "Nine"]
  const Teens: seq<string> := ["Ten", "Eleven", "Twelve", "Thirteen", "Fourteen", "Fifteen",
                               "Sixteen", "Seventeen", "Eighteen", "Nineteen"]
  const Tens: seq<string> := ["", "", "Twenty", "Thirty", "Forty", "Fifty", "Sixty", "Seventy", "Eighty", "Ninety"]

  /** Words below one hundred, decimal digits from one hundred on. */
  function NumberToWords(n: nat): (r: string)
    ensures 0 < n < 100 ==> r != [] && IsUpper(r[0])
    ensures n >= 100 ==> ParseDecimal(r) == Some(n)
  {
    OnesCapitalised();
    TeensCapitalised();
    TensCapitalised();
    if n < 10 then Ones[n]
    else if n < 20 then Teens[n - 10]
    else if n < 100 then Tens[n / 10] + (if n % 10 == 0 then "" else " " + Ones[n % 10])
    else NatToStringRoundTrip(n); NatToString(n)
  }

  predicate IsUpper(c: char) {
    'A' <= c <= 'Z'
  }

  /** A table word is empty or starts with a capital letter. */
  predicate IsTableWord(w: string) {
    w == [] || IsUpper(w[0])
  }

  lemma OnesCapitalised()
    ensures forall k :: 0 <= k < 10 ==> IsTableWord(Ones[k]) && (k > 0 ==> Ones[k] != [])
  {}

  lemma TeensCapitalised()
    ensures forall k :: 0 <= k < 10 ==> Teens[k] != [] && IsTableWord(Teens[k])
  {}

  lemma TensCapitalised()
    ensures forall k :: 0 <= k < 10 ==> IsTableWord(Tens[k]) && (k > 1 ==> Tens[k] != [])
  {}

  /** Index of the first occurrence of `w` in `table`. */
  function Lookup(table: seq<string>, w: string): (r: Option<nat>)
    ensures r.Some? ==> r.value < |table| && table[r.value] == w
    ensures r.Some? ==> forall j :: 0 <= j < r.value ==> table[j] != w
    ensures r.None? ==> forall j :: 0 <= j < |table| ==> table[j] != w
  {
    if table == [] then None
    else if table[0] == w then Some(0)
    else match Lookup(table[1..], w)
      case None => None
      case Some(k) => Some(k + 1)
  }

  /** Position of the first space in `s`. */
  function FirstSpace(s: string): (r: Option<nat>)
    ensures r.Some? ==> r.value < |s| && s[r.value] == ' ' && forall j :: 0 <= j < r.value ==> s[j] != ' '
    ensures r.None? ==> forall j :: 0 <= j < |s| ==> s[j] != ' '
  {
    if s == [] then None
    else if s[0] == ' ' then Some(0)
    else match FirstSpace(s[1..])
      case None => None
      case Some(k) => Some(k + 1)
  }

  /** Reads back what `NumberToWords` writes: a table word, a tens word and
      a units word separated by one space, or decimal digits. */
  function ParseWords(s: string): Option<nat> {
    ParseWordsWith(Ones, Teens, Tens, s)
  }

  /** The reader over given tables of units, teens and tens words. */
  function ParseWordsWith(ones: seq<string>, teens: seq<string>, tens: seq<string>, s: string): Option<nat> {
    if s == "" then Some(0)
    else match FirstSpace(s)
      case None =>
        (match Lookup(ones, s)
         case Some(k) => Some(k)
         case None =>
           match Lookup(teens, s)
           case Some(k) => Some(10 + k)
           case None =>
             match Lookup(tens, s)
             case Some(k) => Some(10 * k)
             case None => ParseDecimal(s))
      case Some(i) =>
        match (Lookup(tens, s[..i]), Lookup(ones, s[i + 1..]))
        case (Some(t), Some(u)) => Some(10 * t + u)
        case _ => None
  }

  lemma ReadUnitsWord(ones: seq<string>, teens: seq<string>, tens: seq<string>, s: string, k: nat)
    requires s != "" && FirstSpace(s).None? && Lookup(ones, s) == Some(k)
    ensures ParseWordsWith(ones, teens, tens, s) == Some(k)
  {}

  lemma ReadTeensWord(ones: seq<string>, teens: seq<string>, tens: seq<string>, s: string, k: nat)
    requires s != "" && FirstSpace(s).None? && Lookup(ones, s).None? && Lookup(teens, s) == Some(k)
    ensures ParseWordsWith(ones, teens, tens, s) == Some(10 + k)
  {}

  lemma ReadTensWord(ones: seq<string>, teens: seq<string>, tens: seq<string>, s: string, k: nat)
    requires s != "" && FirstSpace(s).None? && Lookup(ones, s).None? && Lookup(teens, s).None?
    requires Lookup(tens, s) == Some(k)
    ensures ParseWordsWith(ones, teens, tens, s) == Some(10 * k)
  {}

  lemma ReadDecimalWord(ones: seq<string>, teens: seq<string>, tens: seq<string>, s: string)
    requires s != "" && FirstSpace(s).None?
    requires Lookup(ones, s).None? && Lookup(teens, s).None? && Lookup(tens, s).None?
    ensures ParseWordsWith(ones, teens, tens, s) == ParseDecimal(s)
  {}

  lemma ReadAtSpace(ones: seq<string>, teens: seq<string>, tens: seq<string>, s: string, i: nat, tk: nat, uk: nat)
    requires s != "" && FirstSpace(s) == Some(i)
    requires Lookup(tens, s[..i]) == Some(tk) && Lookup(ones, s[i + 1..]) == Some(uk)
    ensures ParseWordsWith(ones, teens, tens, s) == Some(10 * tk + uk)
  {}

  lemma LookupAbsent(table: seq<string>, w: string)
    requires forall j :: 0 <= j < |table| ==> table[j] != w
    ensures Lookup(table, w).None?
  {}

  lemma OnesDistinct()
    ensures forall j, k :: 0 <= j < k < 10 ==> Ones[j] != Ones[k]
  {}

  lemma TeensDistinct()
    ensures forall j, k :: 0 <= j < k < 10 ==> Teens[j] != Teens[k]
    ensures forall j, k :: 0 <= j < 10 && 0 <= k < 10 ==> Ones[j] != Teens[k]
  {}

  lemma TensDistinct()
    ensures forall j, k :: 0 <= j < 10 && 2 <= k < 10 && j != k ==> Tens[j] != Tens[k]
    ensures forall j, k :: 0 <= j < 10 && 2 <= k < 10 ==> Ones[j] != Tens[k]
    ensures forall j, k :: 0 <= j < 10 && 2 <= k < 10 ==> Teens[j] != Tens[k]
  {}

  lemma NoSpaceInOnes()
    ensures forall k, m :: 0 <= k < 10 && 0 <= m < |Ones[k]| ==> Ones[k][m] != ' '
  {}

  lemma NoSpaceInTeens()
    ensures forall k, m :: 0 <= k < 10 && 0 <= m < |Teens[k]| ==> Teens[k][m] != ' '
  {}

  lemma NoSpaceInTens()
    ensures forall k, m :: 0 <= k < 10 && 0 <= m < |Tens[k]| ==> Tens[k][m] != ' '
  {}

  /** A string of digits is no table word. */
  lemma DigitsNotInTable(s: string, table: seq<string>)
    requires s != [] && IsDigit(s[0])
    requires forall k :: 0 <= k < |table| ==> IsTableWord(table[k])
    ensures Lookup(table, s).None?
  {
    forall k | 0 <= k < |table| ensures table[k] != s {
      if table[k] != [] {
        assert table[k][0] != s[0];
      }
    }
  }

  lemma UnitsRoundTrip(n: nat)
    requires 0 < n < 10
    ensures ParseWords(Ones[n]) == Some(n)
  {
    NoSpaceInOnes();
    OnesDistinct();
    OnesCapitalised();
    assert FirstSpace(Ones[n]).None?;
    LookupAt(Ones, n);
    ReadUnitsWord(Ones, Teens, Tens, Ones[n], n);
  }

  lemma TeensRoundTrip(n: nat)
    requires 10 <= n < 20
    ensures ParseWords(Teens[n - 10]) == Some(n)
  {
    var s := Teens[n - 10];
    NoSpaceInTeens();
    TeensDistinct();
    TeensCapitalised();
    assert FirstSpace(s).None?;
    LookupAbsent(Ones, s);
    LookupAt(Teens, n - 10);
    ReadTeensWord(Ones, Teens, Tens, s, n - 10);
  }

  lemma RoundTensRoundTrip(n: nat)
    requires 20 <= n < 100 && n % 10 == 0
    ensures ParseWords(Tens[n / 10]) == Some(n)
  {
    var k := n / 10;
    assert 10 * k + n % 10 == n;
    TensWordAlone(k);
    ReadTensWord(Ones, Teens, Tens, Tens[k], k);
  }

  /** A tens word holds no space and is found in the tens table only. */
  lemma TensWordAlone(k: nat)
    requires 2 <= k < 10
    ensures Tens[k] != "" && FirstSpace(Tens[k]).None?
    ensures Lookup(Ones, Tens[k]).None? && Lookup(Teens, Tens[k]).None? && Lookup(Tens, Tens[k]) == Some(k)
  {
    NoSpaceInTens();
    TensDistinct();
    TensCapitalised();
    LookupAbsent(Ones, Tens[k]);
    LookupAbsent(Teens, Tens[k]);
    LookupAt(Tens, k);
  }

  lemma LookupAt(table: seq<string>, k: nat)
    requires k < |table| && forall j :: 0 <= j < k ==> table[j] != table[k]
    ensures Lookup(table, table[k]) == Some(k)
  {}

  lemma FirstSpaceAfter(a: string, b: string)
    requires forall m :: 0 <= m < |a| ==> a[m] != ' '
    ensures FirstSpace(a + " " + b) == Some(|a|)
  {
    var s := a + " " + b;
    assert s[|a|] == ' ';
    assert forall m :: 0 <= m < |a| ==> s[m] == a[m];
  }

  /** Two words separated by a space are read as tens and units. */
  lemma ParseCompound(t: string, u: string, tk: nat, uk: nat)
    requires forall m :: 0 <= m < |t| ==> t[m] != ' '
    requires Lookup(Tens, t) == Some(tk) && Lookup(Ones, u) == Some(uk)
    ensures ParseWords(t + " " + u) == Some(10 * tk + uk)
  {
    var s := t + " " + u;
    FirstSpaceAfter(t, u);
    assert s[..|t|] == t;
    assert s[|t| + 1..] == u;
    ReadAtSpace(Ones, Teens, Tens, s, |t|, tk, uk);
  }

  lemma CompoundRoundTrip(n: nat)
    requires 20 <= n < 100 && n % 10 != 0
    ensures ParseWords(Tens[n / 10] + " " + Ones[n % 10]) == Some(n)
  {
    NoSpaceInTens();
    TensDistinct();
    LookupAt(Tens, n / 10);
    OnesDistinct();
    LookupAt(Ones, n % 10);
    ParseCompound(Tens[n / 10], Ones[n % 10], n / 10, n % 10);
  }

  lemma DecimalWordsRoundTrip(n: nat)
    ensures ParseWords(NatToString(n)) == Some(n)
  {
    var s := NatToString(n);
    NatToStringRoundTrip(n);
    OnesCapitalised();
    TeensCapitalised();
    TensCapitalised();
    assert FirstSpace(s).None?;
    DigitsNotInTable(s, Ones);
    DigitsNotInTable(s, Teens);
    DigitsNotInTable(s, Tens);
    ReadDecimalWord(Ones, Teens, Tens, s);
  }

  /** Reading the words back gives the number. */
  lemma WordsRoundTrip(n: nat)
    ensures ParseWords(NumberToWords(n)) == Some(n)
  {
    if n == 0 {
    } else if n < 10 {
      UnitsRoundTrip(n);
    } else if n < 20 {
      TeensRoundTrip(n);
    } else if n < 100 && n % 10 == 0 {
      assert NumberToWords(n) == Tens[n / 10];
      RoundTensRoundTrip(n);
    } else if n < 100 {
      assert NumberToWords(n) == Tens[n / 10] + " " + Ones[n % 10];
      CompoundRoundTrip(n);
    } else {
      DecimalWordsRoundTrip(n);
    }
  }

  // ----- Roman numerals: `number_to_roman` -----

  type Positive = v: nat | v > 0 witness 1

  /** The value table, largest first, with the subtractive pairs. */
  const Numerals: seq<(Positive, string)> :=
    [(1000, "M"), (900, "CM"), (500, "D"), (400, "CD"), (100, "C"), (90, "XC"),
     (50, "L"), (40, "XL"), (10, "X"), (9, "IX"), (5, "V"), (4, "IV"), (1, "I")]

  /** Python's `s * count`: empty for a count of zero or less. */
  function Repeat(s: string, count: int): string
    decreases count
  {
    if count <= 0 then "" else s + Repeat(s, count - 1)
  }

  /** What the conversion loop appends while it walks `table`, when `n` is
      what is left of the number. */
  function RomanOf(n: nat, table: seq<(Positive, string)>): string {
    if table == [] then ""
    else
      var (value, numeral) := table[0];
      Repeat(numeral, n / value) + RomanOf(n % value, table[1..])
  }

  lemma DivideOut(n: nat, value: Positive)
    ensures 0 <= n / value && n / value * value + n % value == n && 0 <= n % value < value
    ensures n / value > 0 ==> value <= n / value * value
    ensures n / value == 0 ==> n % value == n
    ensures n - value * (n / value) == n % value
  {}

  /** One turn of the conversion loop: the numeral built so far plus what
      the rest of the table will append stays the same. */
  lemma RomanLoopStep(result: string, rest: nat, table: seq<(Positive, string)>, k: nat)
    requires k < |table|
    ensures var (value, numeral) := table[k];
      var count := rest / value;
      && (count > 0 ==>
            rest - value * count >= 0 &&
            result + Repeat(numeral, count) + RomanOf(rest - value * count, table[k + 1..])
            == result + RomanOf(rest, table[k..]))
      && (count <= 0 ==> RomanOf(rest, table[k + 1..]) == RomanOf(rest, table[k..]))
  {
    var (value, numeral) := table[k];
    DivideOut(rest, value);
    var count := rest / value;
    assert table[k..][1..] == table[k + 1..];
    assert RomanOf(rest, table[k..]) == Repeat(numeral, count) + RomanOf(rest % value, table[k + 1..]);
    if count <= 0 {
      assert Repeat(numeral, count) == [];
    }
  }

  /** The conversion loop over any value table. */
  method NumberToRomanWith(table: seq<(Positive, string)>, n: nat) returns (result: string)
    ensures result == RomanOf(n, table)
  {
    result := "";
    var rest: nat := n;
    for k := 0 to |table|
      invariant result + RomanOf(rest, table[k..]) == RomanOf(n, table)
    {
      var (value, numeral) := table[k];
      var count := rest / value;
      RomanLoopStep(result, rest, table, k);
      if count > 0 {
        result := result + Repeat(numeral, count);
        rest := rest - value * count;
      }
    }
    assert result + RomanOf(rest, []) == result;
  }

  /** `number_to_roman(n)`: the loop over the standard table; the numeral
      reads back as `n`. */
  method NumberToRoman(n: nat) returns (result: string)
    ensures result == RomanOf(n, Numerals)
    ensures RomanValue(result) == n
  {
    result := NumberToRomanWith(Numerals, n);
    NumeralsReadBack(n);
  }

  function SymbolValue(c: char): nat {
    match c
    case 'I' => 1
    case 'V' => 5
    case 'X' => 10
    case 'L' => 50
    case 'C' => 100
    case 'D' => 500
    case 'M' => 1000
    case _ => 0
  }

  /** The usual reading of a Roman numeral: symbol values add up, except
      that a symbol followed by a larger one is subtracted. */
  function RomanValue(s: string): int {
    if s == [] then 0
    else if |s| >= 2 && SymbolValue(s[0]) < SymbolValue(s[1]) then RomanValue(s[1..]) - SymbolValue(s[0])
    else RomanValue(s[1..]) + SymbolValue(s[0])
  }

  /** Two numerals read as the sum of their values when the first does not
      end in a symbol smaller than the one the second starts with. */
  lemma {:induction false} RomanValueConcat(a: string, b: string)
    requires a != []
    requires b == [] || SymbolValue(a[|a| - 1]) >= SymbolValue(b[0])
    ensures RomanValue(a + b) == RomanValue(a) + RomanValue(b)
  {
    if |a| == 1 {
      assert (a + b)[1..] == b;
    } else {
      assert (a + b)[1..] == a[1..] + b;
      assert (a + b)[1] == a[1];
      RomanValueConcat(a[1..], b);
    }
  }

  /** A table entry whose numeral reads as its value, starts with a symbol no
      larger than that value and ends with one no smaller. */
  predicate GoodEntry(e: (Positive, string)) {
    e.1 != [] && RomanValue(e.1) == e.0 && SymbolValue(e.1[0]) <= e.0 <= SymbolValue(e.1[|e.1| - 1])
  }

  lemma NumeralsGood()
    ensures forall k :: 0 <= k < |Numerals| ==> GoodEntry(Numerals[k])
    ensures Numerals[|Numerals| - 1].0 == 1
  {
    HundredsGood();
    TensGood();
    UnitsGood();
  }

  lemma HundredsGood()
    ensures GoodEntry((1000, "M")) && GoodEntry((900, "CM")) && GoodEntry((500, "D"))
    ensures GoodEntry((400, "CD")) && GoodEntry((100, "C"))
  {}

  lemma TensGood()
    ensures GoodEntry((90, "XC")) && GoodEntry((50, "L")) && GoodEntry((40, "XL")) && GoodEntry((10, "X"))
  {}

  lemma UnitsGood()
    ensures GoodEntry((9, "IX")) && GoodEntry((5, "V")) && GoodEntry((4, "IV")) && GoodEntry((1, "I"))
  {}

  lemma {:induction false} RepeatEnds(m: string, count: nat)
    requires m != []
    ensures count > 0 ==> Repeat(m, count) != [] && Repeat(m, count)[0] == m[0]
    ensures count > 0 ==> Repeat(m, count)[|Repeat(m, count)| - 1] == m[|m| - 1]
    decreases count
  {
    if count > 1 {
      RepeatEnds(m, count - 1);
    }
  }

  /** Copies of a numeral read as that many times its value. */
  lemma {:induction false} RepeatValue(m: string, count: nat, v: int)
    requires m != [] && SymbolValue(m[0]) <= SymbolValue(m[|m| - 1])
    requires RomanValue(m) == v
    ensures RomanValue(Repeat(m, count)) == count * v
    decreases count
  {
    if count > 0 {
      var rest := Repeat(m, count - 1);
      RepeatValue(m, count - 1, v);
      RepeatEnds(m, count - 1);
      RomanValueConcat(m, rest);
      assert Repeat(m, count) == m + rest;
      assert RomanValue(m + rest) == v + (count - 1) * v;
    }
  }

  /** Copies of one table numeral followed by a numeral for the remainder
      read back as the whole number. */
  lemma AppendTerm(n: nat, value: Positive, numeral: string, tail: string)
    requires GoodEntry((value, numeral))
    requires RomanValue(tail) == n % value && (tail == [] || SymbolValue(tail[0]) <= n % value)
    ensures RomanValue(Repeat(numeral, n / value) + tail) == n
    ensures Repeat(numeral, n / value) + tail == [] || SymbolValue((Repeat(numeral, n / value) + tail)[0]) <= n
  {
    var count := n / value;
    var head := Repeat(numeral, count);
    DivideOut(n, value);
    if count > 0 {
      RepeatValue(numeral, count, value);
      RepeatEnds(numeral, count);
      RomanValueConcat(head, tail);
      assert RomanValue(head + tail) == count * value + n % value;
      assert (head + tail)[0] == numeral[0];
    } else {
      assert head == [];
      assert head + tail == tail;
    }
  }

  /** What the loop appends over a table of good entries that ends with the
      value one reads back as the number. */
  lemma {:induction false} RomanOfValue(n: nat, table: seq<(Positive, string)>)
    requires forall k :: 0 <= k < |table| ==> GoodEntry(table[k])
    requires table == [] ==> n == 0
    requires table != [] ==> table[|table| - 1].0 == 1
    ensures RomanValue(RomanOf(n, table)) == n
    ensures RomanOf(n, table) == [] || SymbolValue(RomanOf(n, table)[0]) <= n
  {
    if table != [] {
      var (value, numeral) := table[0];
      DivideOut(n, value);
      if |table| == 1 {
        assert n % value == 0;
      }
      RomanOfValue(n % value, table[1..]);
      assert GoodEntry(table[0]);
      AppendTerm(n, value, numeral, RomanOf(n % value, table[1..]));
    }
  }

  /** The standard table: the numeral reads back as the number. */
  lemma NumeralsReadBack(n: nat)
    ensures RomanValue(RomanOf(n, Numerals)) == n
  {
    NumeralsGood();
    RomanOfValue(n, Numerals);
  }

  /** An entry larger than what is left writes nothing. */
  lemma RomanSkip(n: nat, table: seq<(Positive, string)>)
    requires table != [] && n < table[0].0
    ensures RomanOf(n, table) == RomanOf(n, table[1..])
  {
    DivideOut(n, table[0].0);
  }

  lemma {:induction false} RomanOfZero(table: seq<(Positive, string)>)
    ensures RomanOf(0, table) == ""
  {
    if table != [] {
      DivideOut(0, table[0].0);
      RomanOfZero(table[1..]);
    }
  }

  /** Table values strictly decrease. */
  predicate Descending(table: seq<(Positive, string)>) {
    forall k :: 0 <= k < |table| - 1 ==> table[k].0 > table[k + 1].0
  }

  lemma {:induction false} HeadIsLargest(table: seq<(Positive, string)>, j: nat)
    requires 0 < j < |table| && Descending(table)
    ensures table[0].0 > table[j].0
    decreases j
  {
    if j > 1 {
      HeadIsLargest(table[1..], j - 1);
    }
  }

  lemma NumeralsDescending()
    ensures Descending(Numerals)
  {}

  /** A number that is itself a table value, with only larger values before
      it, is written as that entry's numeral alone. */
  lemma {:induction false} SingleEntry(n: nat, table: seq<(Positive, string)>, j: nat)
    requires j < |table| && table[j].0 == n && Descending(table)
    ensures RomanOf(n, table) == table[j].1
    decreases j
  {
    if j > 0 {
      HeadIsLargest(table, j);
      RomanSkip(n, table);
      SingleEntry(n, table[1..], j - 1);
    } else {
      DivideOut(n, n);
      RomanOfZero(table[1..]);
      assert Repeat(table[0].1, 1) == table[0].1;
    }
  }

  /** The numerals the tests expect for the values that have an entry of
      their own. */
  lemma RomanHundredsExamples()
    ensures RomanOf(1000, Numerals) == "M" && RomanOf(500, Numerals) == "D" && RomanOf(100, Numerals) == "C"
  {
    NumeralsDescending();
    assert Numerals[0] == (1000, "M") && Numerals[2] == (500, "D") && Numerals[4] == (100, "C");
    SingleEntry(1000, Numerals, 0);
    SingleEntry(500, Numerals, 2);
    SingleEntry(100, Numerals, 4);
  }

  lemma RomanTensExamples()
    ensures RomanOf(50, Numerals) == "L" && RomanOf(10, Numerals) == "X" && RomanOf(9, Numerals) == "IX"
  {
    NumeralsDescending();
    assert Numerals[6] == (50, "L") && Numerals[8] == (10, "X") && Numerals[9] == (9, "IX");
    SingleEntry(50, Numerals, 6);
    SingleEntry(10, Numerals, 8);
    SingleEntry(9, Numerals, 9);
  }

  lemma RomanUnitsExamples()
    ensures RomanOf(5, Numerals) == "V" && RomanOf(4, Numerals) == "IV" && RomanOf(1, Numerals) == "I"
  {
    NumeralsDescending();
    assert Numerals[10] == (5, "V") && Numerals[11] == (4, "IV") && Numerals[12] == (1, "I");
    SingleEntry(5, Numerals, 10);
    SingleEntry(4, Numerals, 11);
    SingleEntry(1, Numerals, 12);
  }

  /** An entry that fits once is written once. */
  lemma RomanTakeAt(n: nat, table: seq<(Positive, string)>, i: nat)
    requires i < |table| && table[i].0 <= n < 2 * table[i].0
    ensures RomanOf(n, table[i..]) == table[i].1 + RomanOf(n - table[i].0, table[i + 1..])
  {
    var v := table[i].0;
    DivideOut(n, v);
    assert n / v == 1;
    assert Repeat(table[i].1, 1) == table[i].1;
    assert table[i..][1..] == table[i + 1..];
  }

  /** Entries larger than what is left are passed over. */
  lemma {:induction false} RomanSkipTo(n: nat, table: seq<(Positive, string)>, i: nat, j: nat)
    requires i <= j < |table| && Descending(table)
    requires i < j ==> n < table[j - 1].0
    ensures RomanOf(n, table[i..]) == RomanOf(n, table[j..])
    decreases j - i
  {
    if i < j {
      if i < j - 1 {
        HeadIsLargest(table[i..], j - 1 - i);
      }
      RomanSkip(n, table[i..]);
      assert table[i..][1..] == table[i + 1..];
      RomanSkipTo(n, table, i + 1, j);
    }
  }

  /** The test's four-term numeral, over any descending table with the
      standard entries at the standard places. */
  lemma Roman1994With(t: seq<(Positive, string)>)
    requires |t| == 13 && Descending(t)
    requires t[0] == (1000, "M") && t[1] == (900, "CM") && t[4] == (100, "C") && t[5] == (90, "XC")
    requires t[10] == (5, "V") && t[11] == (4, "IV")
    ensures RomanOf(1994, t) == "MCMXCIV"
  {
    assert t[0..] == t;
    RomanTakeAt(1994, t, 0);
    RomanTakeAt(994, t, 1);
    RomanSkipTo(94, t, 2, 5);
    RomanTakeAt(94, t, 5);
    RomanSkipTo(4, t, 6, 11);
    RomanTakeAt(4, t, 11);
    RomanOfZero(t[12..]);
  }

  lemma Roman1994Example()
    ensures RomanOf(1994, Numerals) == "MCMXCIV"
  {
    NumeralsDescending();
    Roman1994With(Numerals);
  }

  // ----- the numbering style: `format_chapter_number` -----

  /** Python's `t in s` for strings. */
  predicate Contains(s: string, t: string)
    decreases |s|
  {
    t <= s || (s != [] && Contains(s[1..], t))
  }

  /** The number spelt in the style whose name mentions "Words", else
      "Roman", else in decimal digits. */
  function FormatChapterNumber(n: nat, style: string): string {
    if Contains(style, "Words") then NumberToWords(n)
    else if Contains(style, "Roman") then RomanOf(n, Numerals)
    else NatToString(n)
  }

  /** Each spelling reads back as the number it spells. */
  lemma FormatChapterNumberReadsBack(n: nat, style: string)
    ensures Contains(style, "Words") ==> ParseWords(FormatChapterNumber(n, style)) == Some(n)
    ensures !Contains(style, "Words") && Contains(style, "Roman") ==> RomanValue(FormatChapterNumber(n, style)) == n
    ensures !Contains(style, "Words") && !Contains(style, "Roman") ==> ParseDecimal(FormatChapterNumber(n, style)) == Some(n)
  {
    if Contains(style, "Words") {
      WordsRoundTrip(n);
    } else if Contains(style, "Roman") {
      NumeralsReadBack(n);
    } else {
      NatToStringRoundTrip(n);
    }
  }

  /** The spellings the tests expect. */
  lemma WordsExamples()
    ensures NumberToWords(1) == "One" && NumberToWords(5) == "Five" && NumberToWords(10) == "Ten"
    ensures NumberToWords(15) == "Fifteen" && NumberToWords(20) == "Twenty"
    ensures NumberToWords(25) == "Twenty Five" && NumberToWords(99) == "Ninety Nine"
    ensures NatToString(5) == "5" && NatToString(120) == "120"
  {}

  /** A string without the first character of `t` does not contain `t`. */
  lemma {:induction false} LacksFirstChar(s: string, t: string)
    requires t != [] && forall k :: 0 <= k < |s| ==> s[k] != t[0]
    ensures !Contains(s, t)
    decreases |s|
  {
    if s != [] {
      assert s[0] != t[0];
      LacksFirstChar(s[1..], t);
    }
  }

  /** The style names the settings dialog offers. */
  const NumericStyle: string := "Numeric (eg 1, 2, 3...)"
  const WordsStyle: string := "Words (eg One, Two, Three...)"
  const RomanStyle: string := "Roman Numerals (eg I, II, III...)"

  /** Each offered name selects its own spelling. */
  lemma NumericStyleName()
    ensures !Contains(NumericStyle, "Words") && !Contains(NumericStyle, "Roman")
  {
    assert forall k :: 0 <= k < |NumericStyle| ==> NumericStyle[k] != 'W' && NumericStyle[k] != 'R';
    LacksFirstChar(NumericStyle, "Words");
    LacksFirstChar(NumericStyle, "Roman");
  }

  lemma WordsStyleName()
    ensures Contains(WordsStyle, "Words")
  {
    assert "Words" <= WordsStyle;
  }

  lemma RomanStyleName()
    ensures !Contains(RomanStyle, "Words") && Contains(RomanStyle, "Roman")
  {
    assert forall k :: 0 <= k < |RomanStyle| ==> RomanStyle[k] != 'W';
    LacksFirstChar(RomanStyle, "Words");
    assert "Roman" <= RomanStyle;
  }

  /** The spellings the tests expect from each style. */
  lemma NumericStyleExample()
    ensures FormatChapterNumber(5, NumericStyle) == "5"
  {
    NumericStyleName();
  }

  lemma WordsStyleExample()
    ensures FormatChapterNumber(5, WordsStyle) == "Five"
  {
    WordsStyleName();
  }

  lemma RomanStyleExample()
    ensures FormatChapterNumber(5, RomanStyle) == "V"
  {
    RomanStyleName();
    RomanUnitsExamples();
  }

  lemma RomanOneExample()
    ensures FormatChapterNumber(1, RomanStyle) == "I"
  {
    RomanStyleName();
    RomanUnitsExamples();
  }

  lemma WordsThreeStyleExample()
    ensures FormatChapterNumber(3, WordsStyle) == "Three"
  {
    WordsStyleName();
    assert NumberToWords(3) == "Three";
  }
}
