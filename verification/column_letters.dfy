/**
 * Spreadsheet column names (api/sheets.js, the PATCH branch): column index
 * 0 is "A", 25 is "Z", 26 is "AA". This is bijective base-26 numeration of
 * index + 1 over the digits A..Z.
 */
module ColumnLetters {

  predicate IsCapital(c: char) {
    'A' <= c <= 'Z'
  }

  predicate AllCapitals(s: string) {
    forall i :: 0 <= i < |s| ==> IsCapital(s[i])
  }

  /** `String.fromCharCode(65 + d)` for a digit d in 0..25. */
  function Capital(d: nat): (c: char)
    requires d < 26
    ensures IsCapital(c) && c as int - 'A' as int == d
  {
    ('A' as int + d) as char
  }

  /** The bijective base-26 numeral of n (the empty string for 0). */
  function Numeral(n: nat): string
    decreases n
  {
    if n == 0 then "" else Numeral((n - 1) / 26) + [Capital((n - 1) % 26)]
  }

  /** The column name of a 0-based column index. */
  function ColumnName(colIndex: nat): string {
    Numeral(colIndex + 1)
  }

  /** Reads a bijective base-26 numeral back (A = 1, ..., Z = 26). */
  function NumeralValue(s: string): nat
    requires AllCapitals(s)
  {
    if s == [] then 0
    else NumeralValue(s[..|s| - 1]) * 26 + (s[|s| - 1] as int - 'A' as int) + 1
  }

  /** Every numeral is made of capitals and reads back as the number it names. */
  lemma {:induction false} NumeralRoundTrip(n: nat)
    ensures AllCapitals(Numeral(n))
    ensures NumeralValue(Numeral(n)) == n
    decreases n
  {
    if n > 0 {
      NumeralRoundTrip((n - 1) / 26);
      var s := Numeral(n);
      assert s[..|s| - 1] == Numeral((n - 1) / 26);
    }
  }

  /** Every string of capitals is the numeral of its value: the numeration is onto. */
  lemma {:induction false} NumeralOfValue(s: string)
    requires AllCapitals(s)
    ensures Numeral(NumeralValue(s)) == s
    decreases |s|
  {
    if s != [] {
      var p := s[..|s| - 1];
      var d := s[|s| - 1] as int - 'A' as int;
      NumeralOfValue(p);
      var v := NumeralValue(s);
      assert v - 1 == NumeralValue(p) * 26 + d;
      assert (v - 1) / 26 == NumeralValue(p) && (v - 1) % 26 == d by {
        DivModOfDigit(NumeralValue(p), d);
      }
      assert s == p + [s[|s| - 1]];
    }
  }

  lemma DivModOfDigit(q: nat, d: int)
    requires 0 <= d < 26
    ensures (q * 26 + d) / 26 == q && (q * 26 + d) % 26 == d
  {
  }

  /** Column names are non-empty capitals, name distinct columns differently, and decode to the index. */
  lemma ColumnNameSpec(colIndex: nat, other: nat)
    ensures ColumnName(colIndex) != [] && AllCapitals(ColumnName(colIndex))
    ensures NumeralValue(ColumnName(colIndex)) == colIndex + 1
    ensures ColumnName(colIndex) == ColumnName(other) <==> colIndex == other
  {
    NumeralRoundTrip(colIndex + 1);
    NumeralRoundTrip(other + 1);
  }

  /** The loop of lines 126-131: prepend a letter, then step to `Math.floor(colNum / 26) - 1` until negative. */
  method ColumnLetter(colIndex: nat) returns (colLetter: string)
    ensures colLetter != [] && AllCapitals(colLetter)
    ensures NumeralValue(colLetter) == colIndex + 1
    ensures colLetter == ColumnName(colIndex)
  {
    colLetter := "";
    var colNum: int := colIndex;
    while colNum >= 0
      invariant colNum >= -1
      invariant Numeral(colNum + 1) + colLetter == ColumnName(colIndex)
      decreases colNum + 1
    {
      colLetter := [Capital(colNum % 26)] + colLetter;
      colNum := colNum / 26 - 1;
    }
    assert colLetter == ColumnName(colIndex);
    ColumnNameSpec(colIndex, colIndex);
  }
}
