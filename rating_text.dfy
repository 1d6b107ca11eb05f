/** The text `/rating` sends: a header line, then one line per rating row,
    `| @<name padded to 11> | <count padded to 11>|`, joined by newlines. */
module RatingText {
  import opened Wrappers
  import Decimal
  import opened Rating

  const Header: string := "|USER_NAME    |COUNT_PRIZE|"
  const Width: nat := 11

  /** The error a handler raises. */
  datatype FormatError = NoneHasNoFormat

  /** `format(s, '<11')`: s left-aligned in a field of at least 11 characters. */
  function PadRight(s: string, width: nat): (r: string)
    ensures |r| == if |s| >= width then |s| else width
    ensures r[..|s|] == s
    ensures forall i :: |s| <= i < |r| ==> r[i] == ' '
  {
    if |s| >= width then s else s + seq(width - |s|, _ => ' ')
  }

  /** One rating line: `| @`, the padded name, ` | `, the padded count, `|`. */
  function Line(name: string, prizes: nat): (line: string)
    ensures |line| == 3 + |PadRight(name, Width)| + 3 + |PadRight(Decimal.NatToString(prizes), Width)| + 1
    ensures line[0] == '|' && line[|line| - 1] == '|'
  {
    "| @" + PadRight(name, Width) + " | " + PadRight(Decimal.NatToString(prizes), Width) + "|"
  }

  /** The user name is shown right after `| @`. */
  lemma LineShowsName(name: string, prizes: nat)
    ensures Line(name, prizes)[3..3 + |name|] == name
  {
    var a := PadRight(name, Width);
    var line := Line(name, prizes);
    assert line == "| @" + a + " | " + PadRight(Decimal.NatToString(prizes), Width) + "|";
    assert line[3..3 + |a|] == a;
    assert line[3..3 + |name|] == a[..|name|];
  }

  /** A line whose name and count fit their fields is 29 characters: two more
      than the 27-character header, so its column bars (at 15 and 28) sit one
      and two places right of the header's (at 14 and 26). */
  lemma LineWidth(name: string, prizes: nat)
    requires |name| <= Width && |Decimal.NatToString(prizes)| <= Width
    ensures |Line(name, prizes)| == |Header| + 2 == 29
    ensures Header[14] == '|' && Header[26] == '|'
    ensures Line(name, prizes)[15] == '|' && Line(name, prizes)[28] == '|'
  {
    var line := Line(name, prizes);
    var a, b := PadRight(name, Width), PadRight(Decimal.NatToString(prizes), Width);
    assert line == "| @" + a + " | " + b + "|";
    assert line[15] == " | "[1];
  }

  ghost predicate NoNewline(s: string) {
    forall i :: 0 <= i < |s| ==> s[i] != '\n'
  }

  lemma LineHasNoNewline(name: string, prizes: nat)
    requires NoNewline(name)
    ensures NoNewline(Line(name, prizes))
  {
    var digits := Decimal.NatToString(prizes);
    var a, b := PadRight(name, Width), PadRight(digits, Width);
    assert forall i :: 0 <= i < |a| ==> a[i] != '\n' by {
      forall i | 0 <= i < |a| ensures a[i] != '\n' {
        if i < |name| { assert a[i] == a[..|name|][i]; }
      }
    }
    assert forall i :: 0 <= i < |b| ==> b[i] != '\n' by {
      forall i | 0 <= i < |b| ensures b[i] != '\n' {
        if i < |digits| { assert b[i] == b[..|digits|][i]; assert Decimal.IsDigit(digits[i]); }
      }
    }
  }

  // ----- as written: a NULL user name cannot be formatted -----

  /** `f'| @{x[0]:<11} | {x[1]:<11}|'` as the source writes it: formatting None
      with a width raises TypeError. */
  function RowLineAsWritten(row: RatingRow): Result<string, FormatError> {
    match row.userName
    case None => Failure(NoneHasNoFormat)
    case Some(name) => Success(Line(name, row.prizes))
  }

  /** The list comprehension: the first row that raises stops it. */
  function LinesAsWritten(rows: seq<RatingRow>): (r: Result<seq<string>, FormatError>)
    ensures r.Success? ==> |r.value| == |rows|
  {
    if rows == [] then Success([])
    else
      match RowLineAsWritten(rows[0])
      case Failure(e) => Failure(e)
      case Success(line) =>
        match LinesAsWritten(rows[1..])
        case Failure(e) => Failure(e)
        case Success(rest) => Success([line] + rest)
  }

  /** The source's formatting fails exactly when some rated user has no name. */
  lemma {:induction false} LinesAsWrittenFailIffUnnamed(rows: seq<RatingRow>)
    ensures LinesAsWritten(rows).Failure? <==> exists i :: 0 <= i < |rows| && rows[i].userName.None?
  {
    if rows != [] {
      LinesAsWrittenFailIffUnnamed(rows[1..]);
      assert forall i :: 0 < i < |rows| ==> rows[i] == rows[1..][i - 1];
    }
  }

  // ----- corrected: a missing name is shown empty -----

  function DisplayName(name: Option<string>): string {
    match name
    case None => ""
    case Some(n) => n
  }

  /** One line per rating row, in order, whatever the names. */
  function Lines(rows: seq<RatingRow>): (lines: seq<string>)
    ensures |lines| == |rows|
    ensures forall i :: 0 <= i < |rows| ==> lines[i] == Line(DisplayName(rows[i].userName), rows[i].prizes)
  {
    seq(|rows|, i requires 0 <= i < |rows| => Line(DisplayName(rows[i].userName), rows[i].prizes))
  }

  /** Where the source's formatting succeeds, the corrected one gives the same lines. */
  lemma {:induction false} LinesAgreeWhenNamed(rows: seq<RatingRow>)
    requires LinesAsWritten(rows).Success?
    ensures LinesAsWritten(rows).value == Lines(rows)
  {
    if rows != [] {
      LinesAgreeWhenNamed(rows[1..]);
      LinesCons(rows);
    }
  }

  /** The corrected lines of a non-empty list: the first row's line, then the rest. */
  lemma LinesCons(rows: seq<RatingRow>)
    requires rows != []
    ensures Lines(rows) == [Line(DisplayName(rows[0].userName), rows[0].prizes)] + Lines(rows[1..])
  {
    var rest := rows[1..];
    forall i | 0 < i < |rows| ensures Lines(rows)[i] == Lines(rest)[i - 1] {
      assert rows[i] == rest[i - 1];
    }
  }

  /** `'\n'.join(lines)`. */
  function Join(lines: seq<string>): (s: string)
    ensures lines == [] ==> s == ""
    ensures |lines| >= 1 ==> |s| >= |lines[0]| && s[..|lines[0]|] == lines[0]
  {
    if lines == [] then ""
    else if |lines| == 1 then lines[0]
    else lines[0] + "\n" + Join(lines[1..])
  }

  /** `s.split('\n')`. */
  function Split(s: string): (parts: seq<string>)
    ensures |parts| >= 1
  {
    if s == [] then [""]
    else if s[0] == '\n' then [""] + Split(s[1..])
    else
      var rest := Split(s[1..]);
      [[s[0]] + rest[0]] + rest[1..]
  }

  lemma {:induction false} SplitAfterLine(a: string, b: string)
    requires NoNewline(a)
    ensures Split(a + "\n" + b) == [a] + Split(b)
  {
    if a == [] {
      assert a + "\n" + b == "\n" + b;
      assert ("\n" + b)[1..] == b;
    } else {
      SplitAfterLine(a[1..], b);
      assert (a + "\n" + b)[1..] == a[1..] + "\n" + b;
      assert [a[0]] + a[1..] == a;
    }
  }

  lemma {:induction false} SplitOneLine(a: string)
    requires NoNewline(a)
    ensures Split(a) == [a]
  {
    if a != [] {
      SplitOneLine(a[1..]);
      assert [a[0]] + a[1..] == a;
    }
  }

  /** Splitting the joined lines gives the lines back. */
  lemma {:induction false} SplitJoin(lines: seq<string>)
    requires |lines| >= 1 && forall i :: 0 <= i < |lines| ==> NoNewline(lines[i])
    ensures Split(Join(lines)) == lines
  {
    if |lines| == 1 {
      SplitOneLine(lines[0]);
    } else {
      SplitJoin(lines[1..]);
      SplitAfterLine(lines[0], Join(lines[1..]));
    }
  }

  /** `f"|USER_NAME    |COUNT_PRIZE|\n{res_text}"` with the corrected lines. */
  function Text(rows: seq<RatingRow>): (text: string)
    ensures |text| > |Header| && text[..|Header| + 1] == Header + "\n"
    ensures rows == [] ==> text == Header + "\n"
  {
    Header + "\n" + Join(Lines(rows))
  }

  /** The message is the header followed by one line per row (an empty last
      line when there are no rows), provided no name contains a newline. */
  lemma TextLines(rows: seq<RatingRow>)
    requires forall i :: 0 <= i < |rows| ==> NoNewline(DisplayName(rows[i].userName))
    ensures Split(Text(rows)) == [Header] + if rows == [] then [""] else Lines(rows)
  {
    var lines := Lines(rows);
    SplitAfterLine(Header, Join(lines));
    if rows != [] {
      forall i | 0 <= i < |lines| ensures NoNewline(lines[i]) {
        LineHasNoNewline(DisplayName(rows[i].userName), rows[i].prizes);
      }
      SplitJoin(lines);
    }
  }
}
