/**
 The column list of the housing scripts' INSERT statement: the dataframe's
 column names, in order, joined with ", ". `SplitColumns` is the inverse used
 to show that the joined text determines the column list.
 */
module SqlText {

  /** The separator placed between two column names. */
  const Separator: string := ", "

  /** `", ".join(columns)`: no names give the empty text; otherwise the text
      starts with the first name, followed by the separator when more names
      follow. */
  function JoinColumns(columns: seq<string>): (s: string)
    ensures columns == [] ==> s == ""
    ensures |columns| >= 1 ==> columns[0] <= s
    ensures |columns| >= 2 ==> columns[0] + Separator <= s
  {
    if columns == [] then ""
    else if |columns| == 1 then columns[0]
    else columns[0] + Separator + JoinColumns(columns[1..])
  }

  /** Cuts a text at every occurrence of ", ", keeping the pieces in order
      (`str.split(", ")`). */
  function SplitColumns(s: string): (parts: seq<string>)
    ensures |parts| >= 1
    decreases |s|
  {
    if |s| >= 2 && s[0] == ',' && s[1] == ' ' then [""] + SplitColumns(s[2..])
    else if s == [] then [""]
    else
      var rest := SplitColumns(s[1..]);
      [[s[0]] + rest[0]] + rest[1..]
  }

  /** A name without a comma is never cut. */
  lemma {:induction false} SplitPlain(c: string)
    requires ',' !in c
    ensures SplitColumns(c) == [c]
    decreases |c|
  {
    if c != [] {
      assert ',' !in c[1..];
      SplitPlain(c[1..]);
      assert [c[0]] + c[1..] == c;
    }
  }

  /** A name without a comma followed by the separator is cut off as one piece. */
  lemma {:induction false} SplitAfterName(c: string, t: string)
    requires ',' !in c
    ensures SplitColumns(c + Separator + t) == [c] + SplitColumns(t)
    decreases |c|
  {
    if c == [] {
      assert c + Separator + t == ", " + t;
      assert (", " + t)[2..] == t;
    } else {
      assert ',' !in c[1..];
      SplitAfterName(c[1..], t);
      assert (c + Separator + t)[1..] == c[1..] + Separator + t;
      assert [c[0]] + c[1..] == c;
    }
  }

  /** Round trip: when no column name contains a comma, the joined column list
      gives back the names, in order. */
  lemma {:induction false} SplitJoin(columns: seq<string>)
    requires |columns| >= 1
    requires forall i | 0 <= i < |columns| :: ',' !in columns[i]
    ensures SplitColumns(JoinColumns(columns)) == columns
    decreases |columns|
  {
    if |columns| == 1 {
      SplitPlain(columns[0]);
    } else {
      SplitJoin(columns[1..]);
      SplitAfterName(columns[0], JoinColumns(columns[1..]));
      assert [columns[0]] + columns[1..] == columns;
    }
  }
}
