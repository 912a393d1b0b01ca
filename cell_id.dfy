/** The string id `${col}-${row}` that keys items and active meshes, and the
    proof that it names a cell unambiguously (it can be parsed back). */
module ItemIds {
  import opened GridIndex

  predicate IsDigit(ch: char) {
    '0' <= ch <= '9'
  }

  function DigitChar(d: int): (ch: char)
    requires 0 <= d < 10
    ensures IsDigit(ch) && ch as int - '0' as int == d
  {
    ('0' as int + d) as char
  }

  /** JavaScript's decimal rendering of a non-negative integer. */
  function NatToDecimal(n: nat): (s: string)
    ensures |s| > 0
    ensures forall i :: 0 <= i < |s| ==> IsDigit(s[i])
    decreases n
  {
    if n < 10 then [DigitChar(n)] else NatToDecimal(n / 10) + [DigitChar(n % 10)]
  }

  /** `${n}` for an integer `n`: a minus sign, then the digits of `|n|`. */
  function IntToString(n: int): (s: string)
    ensures |s| > 0 && (s[0] == '-' <==> n < 0)
    ensures forall i :: 0 < i < |s| ==> IsDigit(s[i])
    ensures n >= 0 ==> IsDigit(s[0])
  {
    if n < 0 then "-" + NatToDecimal(-n) else NatToDecimal(n)
  }

  /** The item id `${col}-${row}`. */
  function CellId(c: Cell): (id: string)
    ensures |id| >= 3
    ensures forall i :: 0 <= i < |id| ==> IsDigit(id[i]) || id[i] == '-'
  {
    IntToString(c.col) + "-" + IntToString(c.row)
  }

  /** The value of a string of decimal digits. */
  function DecimalValue(s: string): int
    decreases |s|
  {
    if s == [] then 0 else DecimalValue(s[..|s| - 1]) * 10 + (s[|s| - 1] as int - '0' as int)
  }

  function ParseInt(s: string): int {
    if |s| > 0 && s[0] == '-' then -DecimalValue(s[1..]) else DecimalValue(s)
  }

  /** The first position at or after `from` that holds a `-`, or `|s|` if none. */
  function DashIndex(s: string, from: nat): (i: nat)
    requires from <= |s|
    ensures from <= i <= |s|
    ensures i < |s| ==> s[i] == '-'
    ensures forall k :: from <= k < i ==> s[k] != '-'
    decreases |s| - from
  {
    if from == |s| || s[from] == '-' then from else DashIndex(s, from + 1)
  }

  /** Reads an id back: an optional leading minus belongs to the column, and
      the first `-` after the column's digits separates it from the row. */
  function ParseCellId(s: string): Cell {
    var start := if |s| > 0 && s[0] == '-' then 1 else 0;
    var i := DashIndex(s, start);
    Cell(ParseInt(s[..i]), if i < |s| then ParseInt(s[i + 1..]) else 0)
  }

  lemma {:induction false} DecimalRoundTrip(n: nat)
    ensures DecimalValue(NatToDecimal(n)) == n
    decreases n
  {
    if n >= 10 {
      var s := NatToDecimal(n);
      DecimalRoundTrip(n / 10);
      assert s[..|s| - 1] == NatToDecimal(n / 10);
    }
  }

  lemma IntRoundTrip(n: int)
    ensures ParseInt(IntToString(n)) == n
  {
    if n < 0 {
      DecimalRoundTrip(-n);
      assert IntToString(n)[1..] == NatToDecimal(-n);
    } else {
      DecimalRoundTrip(n);
    }
  }

  /** Parsing an id gives back the cell it was printed from. */
  lemma CellIdRoundTrip(c: Cell)
    ensures ParseCellId(CellId(c)) == c
  {
    var a, b := IntToString(c.col), IntToString(c.row);
    var s := CellId(c);
    assert s == a + "-" + b;
    var start := if c.col < 0 then 1 else 0;
    assert forall k :: start <= k < |a| ==> IsDigit(a[k]);
    assert s[|a|] == '-';
    var i := DashIndex(s, start);
    assert i == |a|;
    assert s[..i] == a;
    assert s[i + 1..] == b;
    IntRoundTrip(c.col);
    IntRoundTrip(c.row);
  }

  /** Distinct cells never share an id, so keys built from ids never collide. */
  lemma CellIdInjective(c1: Cell, c2: Cell)
    ensures CellId(c1) == CellId(c2) <==> c1 == c2
  {
    CellIdRoundTrip(c1);
    CellIdRoundTrip(c2);
  }
}
