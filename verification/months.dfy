/** Rewriting a monthly archive name such as `2018-January.txt` into the
    lexically sortable `2018-01.txt` (`replace_month_name_to_number`). */
module MonthNames {
  import opened Wrappers
  import opened Text

  /** The fixed, ordered list of English month names the rewrite looks up. */
  const Months: seq<string> := [
    "January", "February", "March", "April", "May", "June",
    "July", "August", "September", "October", "November", "December"
  ]

  /** Why a name cannot be rewritten. `FieldCount` is the unpacking error
      raised when the name does not split into three pieces; `UnknownMonth`
      is the error `list.index` raises for a name that is not in the list. */
  datatype RenameError = FieldCount(got: nat) | UnknownMonth(name: string)

  /** `xs.index(x)`: the first position of `x` in `xs`, if any. */
  function IndexOf(xs: seq<string>, x: string): (r: Option<nat>)
    ensures r.Some? ==> r.value < |xs| && xs[r.value] == x && x !in xs[..r.value]
    ensures r.None? <==> x !in xs
    decreases |xs|
  {
    if xs == [] then None
    else if xs[0] == x then
      assert xs[..0] == [];
      Some(0)
    else
      match IndexOf(xs[1..], x)
      case None => None
      case Some(k) =>
        assert xs[..k + 1] == [xs[0]] + xs[1..][..k];
        Some(k + 1)
  }

  /** A decimal digit character. */
  predicate IsDigit(c: char) {
    '0' <= c <= '9'
  }

  /** The decimal digit character for `d`. */
  function DigitChar(d: nat): (c: char)
    requires d < 10
    ensures IsDigit(c) && c as int - '0' as int == d
  {
    ('0' as int + d) as char
  }

  /** `"{:02d}".format(n)` for `n` below 100: two digits, zero-padded. */
  function TwoDigits(n: nat): (r: string)
    requires n < 100
    ensures |r| == 2 && IsDigit(r[0]) && IsDigit(r[1]) && DigitsValue(r) == n
  {
    [DigitChar(n / 10), DigitChar(n % 10)]
  }

  /** The number a string of two decimal digits denotes. */
  function DigitsValue(d: string): nat
    requires |d| == 2 && IsDigit(d[0]) && IsDigit(d[1])
  {
    (d[0] as int - '0' as int) * 10 + (d[1] as int - '0' as int)
  }

  /** A month field as the rewrite writes it: exactly two digits, `01`..`12`. */
  predicate IsMonthNumber(d: string) {
    |d| == 2 && IsDigit(d[0]) && IsDigit(d[1]) && 1 <= DigitsValue(d) <= 12
  }

  /** `replace_month_name_to_number`: split the name on `.`/`-` into year,
      month name and extension, and replace the month name by its 1-based
      position in `Months`, as two digits. The output always uses `-` after
      the year and `.` before the extension. */
  function Rewrite(txtName: string): (r: Result<string, RenameError>)
    ensures r.Success? <==> |Seps(txtName)| == 2 && Split(txtName)[1] in Months
    ensures |Seps(txtName)| != 2 ==> r == Failure(FieldCount(|Seps(txtName)| + 1))
    ensures |Seps(txtName)| == 2 && Split(txtName)[1] !in Months ==>
              r == Failure(UnknownMonth(Split(txtName)[1]))
  {
    var fields := Split(txtName);
    if |fields| != 3 then Failure(FieldCount(|fields|))
    else
      match IndexOf(Months, fields[1])
      case None => Failure(UnknownMonth(fields[1]))
      case Some(k) => Success(fields[0] + "-" + TwoDigits(k + 1) + "." + fields[2])
  }
}
