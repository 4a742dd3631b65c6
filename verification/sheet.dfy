/** Spreadsheet rows as both question importers read them: a row maps column
    headers to cells, a column is looked up through a chain of header
    aliases, and the correct-answer code is read through a fixed table with
    a numeric fallback. */
module Sheet {
  import opened Wrappers
  import opened Text

  /** A cell as the sheet reader delivers it: text or an integer. */
  datatype Cell = Str(s: string) | Num(n: int)

  /** JavaScript truthiness of a cell. */
  predicate CellTruthy(c: Cell) {
    match c
    case Str(s) => s != []
    case Num(n) => n != 0
  }

  /** `String(value)` of a cell; a truthy cell never reads as `''`. */
  function CellString(c: Cell): (r: string)
    ensures CellTruthy(c) ==> r != []
  {
    match c
    case Str(s) => s
    case Num(n) => IntToString(n)
  }

  type Row = map<string, Cell>

  /** Column `k` holds a truthy cell. */
  predicate Present(row: Row, k: string) {
    k in row && CellTruthy(row[k])
  }

  /** `row[k0] || row[k1] || ...`, as the index of the first alias that holds
      a truthy cell; `None` when every alias is absent or falsy. */
  function PickIndex(row: Row, keys: seq<string>): (r: Option<nat>)
    ensures r.Some? ==> r.value < |keys| && Present(row, keys[r.value])
    ensures r.Some? ==> forall j :: 0 <= j < r.value ==> !Present(row, keys[j])
    ensures r.None? <==> forall j :: 0 <= j < |keys| ==> !Present(row, keys[j])
  {
    if |keys| == 0 then None
    else if Present(row, keys[0]) then Some(0)
    else
      match PickIndex(row, keys[1..])
      case None => None
      case Some(i) => Some(i + 1)
  }

  /** The cell the `||` chain yields, when it yields a truthy one. */
  function Pick(row: Row, keys: seq<string>): (r: Option<Cell>)
    ensures r.Some? ==> CellTruthy(r.value)
    ensures r.None? <==> forall j :: 0 <= j < |keys| ==> !Present(row, keys[j])
  {
    match PickIndex(row, keys)
    case None => None
    case Some(i) => Some(row[keys[i]])
  }

  /** The `||` chain stops at the first truthy alias. */
  lemma PickFirst(row: Row, keys: seq<string>, i: nat)
    requires i < |keys| && Present(row, keys[i])
    requires forall j :: 0 <= j < i ==> !Present(row, keys[j])
    ensures Pick(row, keys) == Some(row[keys[i]])
  {
  }

  /** `String(row[k0] || ... || '')`. */
  function PickString(row: Row, keys: seq<string>): (r: string)
    ensures r == [] <==> Pick(row, keys).None?
  {
    match Pick(row, keys)
    case None => ""
    case Some(c) => CellString(c)
  }

  /** The option a one-character code names in the fixed table: A/1/أ is
      0, B/2/ب is 1, C/3/ج is 2, D/4/د is 3 (every code of the table is
      one character long). */
  function TableIndex(c: char): Option<nat> {
    if c == 'A' || c == '1' || c == 'أ' then Some(0)
    else if c == 'B' || c == '2' || c == 'ب' then Some(1)
    else if c == 'C' || c == '3' || c == 'ج' then Some(2)
    else if c == 'D' || c == '4' || c == 'د' then Some(3)
    else None
  }

  /** The trimmed, upper-cased code read as an option number: the table
      first, otherwise `parseInt(code) - 1`, and -1 when the code is not a
      number. */
  function CorrectIndexOf(raw: string): int {
    var u := ToUpper(Trim(raw));
    if |u| == 1 && TableIndex(u[0]).Some? then TableIndex(u[0]).value
    else
      match ParseInt(u)
      case Some(n) => n - 1
      case None => -1
  }

  /** A one-character code with no white space around it is read through
      the table, after upper-casing. */
  lemma {:induction false} OneCharCode(c: char)
    requires !IsSpace(c) && TableIndex(UpperChar(c)).Some?
    ensures CorrectIndexOf([c]) == TableIndex(UpperChar(c)).value
  {
    TrimStartNoSpace([c]);
    assert TrimEnd([c]) == [c];
    assert ToUpper([c]) == [UpperChar(c)];
  }

  /** The letter codes are read case-insensitively. */
  lemma CorrectCodeLetters()
    ensures CorrectIndexOf("a") == 0 && CorrectIndexOf("b") == 1
    ensures CorrectIndexOf("c") == 2 && CorrectIndexOf("d") == 3
    ensures CorrectIndexOf("أ") == 0 && CorrectIndexOf("ب") == 1
    ensures CorrectIndexOf("ج") == 2 && CorrectIndexOf("د") == 3
  {
    LowerCaseCodes();
    ArabicCodes();
  }

  lemma LowerCaseCodes()
    ensures CorrectIndexOf("a") == 0 && CorrectIndexOf("b") == 1
    ensures CorrectIndexOf("c") == 2 && CorrectIndexOf("d") == 3
  {
    OneCharCode('a');
    OneCharCode('b');
    OneCharCode('c');
    OneCharCode('d');
  }

  lemma ArabicCodes()
    ensures CorrectIndexOf("أ") == 0 && CorrectIndexOf("ب") == 1
    ensures CorrectIndexOf("ج") == 2 && CorrectIndexOf("د") == 3
  {
    OneCharCode('أ');
    OneCharCode('ب');
    OneCharCode('ج');
    OneCharCode('د');
  }

  /** White space around the code does not matter. */
  lemma CorrectCodeTrimmed()
    ensures CorrectIndexOf(" B\t") == 1
  {
    TrimmedCode();
    TableCode(" B\t", 'B');
  }

  /** A code that trims to one character of the table is read through it. */
  lemma TableCode(raw: string, c: char)
    requires Trim(raw) == [c] && TableIndex(UpperChar(c)).Some?
    ensures CorrectIndexOf(raw) == TableIndex(UpperChar(c)).value
  {
    assert ToUpper([c]) == [UpperChar(c)];
  }

  lemma TrimmedCode()
    ensures Trim(" B\t") == "B"
  {
    assert TrimStart(" B\t") == "B\t" by {
      assert " B\t"[1..] == "B\t";
      TrimStartNoSpace("B\t");
    }
    assert TrimEnd("B\t") == "B" by {
      assert "B\t"[..1] == "B";
    }
  }

  /** A code that is neither in the table nor a number names no option. */
  lemma CorrectCodeUnknown()
    ensures CorrectIndexOf("") == -1 && CorrectIndexOf("E") == -1
  {
    TrimStartNoSpace("E");
    assert ToUpper("E") == "E";
    assert RunLength("E", 10) == 0;
  }

  /** Every written number `n` names option `n - 1`, through the table for
      1-4 and through `parseInt` beyond it. */
  lemma NumericCodes(n: nat)
    ensures CorrectIndexOf(NatToString(n)) == n - 1
  {
    var s := NatToString(n);
    DigitsAreClean(s);
    ParseIntRoundTrip(n);
    if n < 10 {
      DigitTable(n);
    } else {
      assert |s| >= 2;
    }
  }

  /** A digit string is its own trimmed, upper-cased form. */
  lemma DigitsAreClean(s: string)
    requires |s| > 0 && forall k :: 0 <= k < |s| ==> IsDigit(s[k])
    ensures ToUpper(Trim(s)) == s
  {
    TrimStartNoSpace(s);
    assert TrimEnd(s) == s;
  }

  /** The table agrees with `parseInt` on the one-digit codes it lists. */
  lemma DigitTable(n: nat)
    requires n < 10
    ensures NatToString(n) == [DigitChar(n)]
    ensures TableIndex(DigitChar(n)).Some? ==> TableIndex(DigitChar(n)).value == n - 1
  {
    var c := DigitChar(n);
    assert c as int == '0' as int + n;
  }

  /** A one-character text without white space is its own trimmed form. */
  lemma OneCharTrimmed(c: char)
    requires !IsSpace(c)
    ensures Trim([c]) == [c]
  {
    TrimStartNoSpace([c]);
    assert TrimEnd([c]) == [c];
  }

  lemma FourColumns(raw: seq<string>, a: string, b: string, c: string, d: string)
    requires |raw| == 4 && raw[0] == a && raw[1] == b && raw[2] == c && raw[3] == d
    ensures raw == [a, b, c, d]
  {
  }
}
