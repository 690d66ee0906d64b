/** What `replace_month_name_to_number` promises: the shape of a
    rewritten name, its round trip through splitting, and the names it
    rejects. */
module MonthNameLaws {
  import opened Wrappers
  import opened Text
  import opened MonthNames

  /** No two positions of `xs` hold the same string. */
  predicate Distinct(xs: seq<string>) {
    forall i, j :: 0 <= i < j < |xs| ==> xs[i] != xs[j]
  }

  /** In a list without repeats, `IndexOf` finds each element at its own
      position. */
  lemma IndexOfDistinct(xs: seq<string>, k: nat)
    requires Distinct(xs) && k < |xs|
    ensures IndexOf(xs, xs[k]) == Some(k)
  {
  }

  /** The twelve month names are pairwise distinct. */
  lemma MonthsDistinct()
    ensures Distinct(Months)
  {
  }

  /** Each month name is found at its own position in the list. */
  lemma MonthIndex(k: nat)
    requires k < |Months|
    ensures IndexOf(Months, Months[k]) == Some(k)
  {
    MonthsDistinct();
    IndexOfDistinct(Months, k);
  }

  /** The year and the extension pass through unchanged: for a name
      `y c1 m c2 e` with separator-free pieces and `m` the `k`-th month, the
      rewrite is exactly `y-kk.e`, whichever separators `c1`, `c2` are. */
  lemma RewriteShape(y: string, c1: char, m: string, c2: char, e: string, k: nat)
    requires NoSep(y) && NoSep(m) && NoSep(e) && IsSep(c1) && IsSep(c2)
    requires 1 <= k <= 12 && Months[k - 1] == m
    ensures Rewrite(y + [c1] + m + [c2] + e) == Success(y + "-" + TwoDigits(k) + "." + e)
  {
    SplitThree(y, c1, m, c2, e);
    MonthIndex(k - 1);
  }

  /** A month position written with `TwoDigits` is a separator-free month
      field that reads back as the same number. */
  lemma TwoDigitsMonth(n: nat)
    requires 1 <= n <= 12
    ensures NoSep(TwoDigits(n)) && IsMonthNumber(TwoDigits(n))
    ensures DigitsValue(TwoDigits(n)) == n
  {
  }

  /** Round trip: the rewritten name splits again into three pieces, with
      the same year and extension and a month field of exactly two digits
      between `01` and `12` that names the original month. */
  lemma {:induction false} RewriteRoundTrip(txtName: string)
    requires Rewrite(txtName).Success?
    ensures var before := Split(txtName);
            var after := Split(Rewrite(txtName).value);
            && |after| == 3
            && after[0] == before[0]
            && after[2] == before[2]
            && IsMonthNumber(after[1])
            && Months[DigitsValue(after[1]) - 1] == before[1]
  {
    var before := Split(txtName);
    var k := IndexOf(Months, before[1]).value;
    var d := TwoDigits(k + 1);
    TwoDigitsMonth(k + 1);
    SplitThree(before[0], '-', d, '.', before[2]);
    assert Rewrite(txtName).value == before[0] + ['-'] + d + ['.'] + before[2];
  }

  /** A name that is `year sep name sep ext` but whose middle piece is not
      one of the twelve month names is rejected with that piece. */
  lemma RejectUnknownMonth(y: string, c1: char, m: string, c2: char, e: string)
    requires NoSep(y) && NoSep(m) && NoSep(e) && IsSep(c1) && IsSep(c2)
    requires m !in Months
    ensures Rewrite(y + [c1] + m + [c2] + e) == Failure(UnknownMonth(m))
  {
    SplitThree(y, c1, m, c2, e);
  }

  /** A name made of separator-free pieces joined by separators, other
      than three pieces (`2018-January.txt.bak` has four), is rejected by
      the three-way unpacking with the number of pieces. */
  lemma {:induction false} RejectWrongPieceCount(fields: seq<string>, seps: string)
    requires |fields| == |seps| + 1 && |fields| != 3
    requires forall k :: 0 <= k < |fields| ==> NoSep(fields[k])
    requires AllSep(seps)
    ensures Rewrite(Interleave(fields, seps)) == Failure(FieldCount(|fields|))
  {
    SplitInterleave(fields, seps);
  }

  /** A name with no `.` or `-` at all is a single piece and is rejected by
      the three-way unpacking. */
  lemma RejectNoSeparator(txtName: string)
    requires NoSep(txtName)
    ensures Rewrite(txtName) == Failure(FieldCount(1))
  {
    SepsOfNoSep(txtName);
  }

  /** No month name contains a separator. */
  lemma MonthsNoSep(k: nat)
    requires k < |Months|
    ensures NoSep(Months[k])
  {
  }
}
