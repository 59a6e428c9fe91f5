/**
 * `output_gcin` and `output_macosx`: the `result` rows as the lines of an
 * input-method table, one row per line, or one line per run of equal codes.
 */
module Output {
  import opened Wrappers
  import opened Text
  import opened Loader
  import opened Ranking

  /** The field width of `%-6s`. */
  const CodeWidth: nat := 6

  /** `"%-6s%s" % (code, text)`. */
  function FormatLine(code: string, text: string): (r: string)
    ensures |r| == (if |code| < CodeWidth then CodeWidth else |code|) + |text|
    ensures r[..|code|] == code && r[|r| - |text|..] == text
    ensures forall i :: |code| <= i < |r| - |text| ==> r[i] == ' '
  {
    PadRight(code, CodeWidth) + text
  }

  /**
   * A line written for a code shorter than the field, followed by the newline
   * that `"\n".join` puts after it, reads back with the `.cin` line reader as
   * the row it was written for.
   */
  lemma FormatLineReadsBack(code: string, ch: string, post: string)
    requires code != [] && NoSpace(code) && code[0] != '#' && code[0] != '%' && |code| < CodeWidth
    requires ch != [] && Trimmed(Unicode, ch)
    requires AllWhite(Unicode, post)
    ensures ParseLine(FormatLine(code, ch) + post) == Some((Upper(code), ch))
  {
    var gap := Spaces(CodeWidth - |code|);
    var e: string := [];
    assert FormatLine(code, ch) == code + gap + ch;
    assert e + code == code;
    assert AllWhite(Unicode, e) && AllWhite(Unicode, gap) && gap[0] == ' ';
    ParseFields(e, code, gap, ch, post);
  }

  /** A code as long as the field or longer runs straight into its char. */
  lemma FormatLineLongCode(code: string, ch: string)
    requires |code| >= CodeWidth
    ensures FormatLine(code, ch) == code + ch
  {
  }

  /** The `outputlines` loop of `output_gcin`: one formatted line per row, and the count of rows. */
  method GcinLines(rows: seq<Row>) returns (lines: seq<string>, wordcount: nat)
    ensures |lines| == |rows| && wordcount == |rows|
    ensures forall i :: 0 <= i < |rows| ==> lines[i] == FormatLine(rows[i].code, rows[i].ch)
  {
    lines := [];
    for i := 0 to |rows|
      invariant |lines| == i
      invariant forall j :: 0 <= j < i ==> lines[j] == FormatLine(rows[j].code, rows[j].ch)
    {
      lines := lines + [FormatLine(rows[i].code, rows[i].ch)];
    }
    wordcount := |lines|;
  }

  /** One entry of `outputtable`: a code and the chars of its run of rows. */
  datatype Group = Group(code: string, chars: seq<string>)

  /** The (code, char) pairs of the rows, in order. */
  function Pairs(rows: seq<Row>): (r: seq<Entry>)
    ensures |r| == |rows|
    ensures forall i :: 0 <= i < |rows| ==> r[i] == (rows[i].code, rows[i].ch)
  {
    seq(|rows|, i requires 0 <= i < |rows| => (rows[i].code, rows[i].ch))
  }

  /** The (code, char) pairs a group stands for. */
  function GroupPairs(g: Group): (r: seq<Entry>)
    ensures |r| == |g.chars|
    ensures forall j :: 0 <= j < |g.chars| ==> r[j] == (g.code, g.chars[j])
  {
    seq(|g.chars|, j requires 0 <= j < |g.chars| => (g.code, g.chars[j]))
  }

  /** `sum(len(cc) for _,cc in outputtable)`: at least one per group, as no group is empty. */
  function Count(gs: seq<Group>): (r: nat)
    ensures WellGrouped(gs) ==> r >= |gs|
  {
    if gs == [] then 0 else Count(gs[..|gs| - 1]) + |gs[|gs| - 1].chars|
  }

  /** The groups spelled out again, row by row; as many pairs as `Count` says. */
  function Expand(gs: seq<Group>): (r: seq<Entry>)
    ensures |r| == Count(gs)
  {
    if gs == [] then [] else Expand(gs[..|gs| - 1]) + GroupPairs(gs[|gs| - 1])
  }

  /** No group is empty, and neighbouring groups have different codes. */
  predicate WellGrouped(gs: seq<Group>) {
    && (forall i :: 0 <= i < |gs| ==> gs[i].chars != [])
    && (forall i :: 0 < i < |gs| ==> gs[i - 1].code != gs[i].code)
  }

  /** One more group spells out its pairs after the others. */
  lemma ExpandSnoc(gs: seq<Group>, g: Group)
    ensures Expand(gs + [g]) == Expand(gs) + GroupPairs(g)
  {
    assert (gs + [g])[..|gs|] == gs;
  }

  /** One more char in the last group spells out one more pair at the end. */
  lemma ExpandGrowLast(front: seq<Group>, last: Group, ch: string)
    ensures Expand(front + [Group(last.code, last.chars + [ch])]) == Expand(front + [last]) + [(last.code, ch)]
  {
    ExpandSnoc(front, last);
    ExpandSnoc(front, Group(last.code, last.chars + [ch]));
    assert GroupPairs(Group(last.code, last.chars + [ch])) == GroupPairs(last) + [(last.code, ch)];
  }

  /** A group that is not empty and whose code differs from the last keeps the groups well formed. */
  lemma WellGroupedSnoc(gs: seq<Group>, g: Group)
    requires WellGrouped(gs) && g.chars != []
    requires gs != [] ==> gs[|gs| - 1].code != g.code
    ensures WellGrouped(gs + [g])
  {
  }

  /** Growing the last group keeps the groups well formed. */
  lemma WellGroupedGrowLast(front: seq<Group>, last: Group, ch: string)
    requires WellGrouped(front + [last])
    ensures WellGrouped(front + [Group(last.code, last.chars + [ch])])
  {
    var gs, gs' := front + [last], front + [Group(last.code, last.chars + [ch])];
    forall i | 0 <= i < |gs'| ensures gs'[i].code == gs[i].code && gs'[i].chars != [] {
      if i < |front| {
        assert gs'[i] == gs[i];
      }
    }
  }

  /**
   * `table` is the grouping of `rows`: well formed, spelling out the rows, and
   * ending in a group with the code of the last row.
   */
  predicate GroupsOf(rows: seq<Row>, table: seq<Group>) {
    && WellGrouped(table)
    && Expand(table) == Pairs(rows)
    && (table == [] <==> rows == [])
    && (rows != [] ==> table[|table| - 1].code == rows[|rows| - 1].code)
  }

  /** One more row joins the last group when it has the code of that group. */
  lemma GroupsOfJoin(rows: seq<Row>, front: seq<Group>, last: Group, row: Row)
    requires GroupsOf(rows, front + [last]) && last.code == row.code
    ensures GroupsOf(rows + [row], front + [Group(last.code, last.chars + [row.ch])])
  {
    ExpandGrowLast(front, last, row.ch);
    WellGroupedGrowLast(front, last, row.ch);
    assert Pairs(rows + [row]) == Pairs(rows) + [(row.code, row.ch)];
  }

  /** One more row opens a group of its own when its code is not that of the last group. */
  lemma GroupsOfOpen(rows: seq<Row>, table: seq<Group>, row: Row)
    requires GroupsOf(rows, table) && (table != [] ==> table[|table| - 1].code != row.code)
    ensures GroupsOf(rows + [row], table + [Group(row.code, [row.ch])])
  {
    ExpandSnoc(table, Group(row.code, [row.ch]));
    WellGroupedSnoc(table, Group(row.code, [row.ch]));
    assert Pairs(rows + [row]) == Pairs(rows) + [(row.code, row.ch)];
  }

  /**
   * The grouping loop of `output_macosx`: a row whose code is that of the last
   * group joins it, any other row opens a new group. The groups spell out the
   * rows again, none is empty, neighbours differ in code, and the count is
   * the number of rows.
   */
  method GroupRows(rows: seq<Row>) returns (table: seq<Group>, wordcount: nat)
    ensures WellGrouped(table)
    ensures Expand(table) == Pairs(rows)
    ensures wordcount == |rows|
  {
    table := [];
    for i := 0 to |rows|
      invariant GroupsOf(rows[..i], table)
    {
      var row := rows[i];
      if table != [] && table[|table| - 1].code == row.code {
        var front, last := table[..|table| - 1], table[|table| - 1];
        var grown := front + [Group(last.code, last.chars + [row.ch])];
        assert GroupsOf(rows[..i + 1], grown) by {
          assert table == front + [last];
          assert rows[..i + 1] == rows[..i] + [row];
          GroupsOfJoin(rows[..i], front, last, row);
        }
        table := grown;
      } else {
        var extended := table + [Group(row.code, [row.ch])];
        assert GroupsOf(rows[..i + 1], extended) by {
          assert rows[..i + 1] == rows[..i] + [row];
          GroupsOfOpen(rows[..i], table, row);
        }
        table := extended;
      }
    }
    assert rows[..|rows|] == rows;
    wordcount := Count(table);
  }

  /**
   * One line of the macOS table: the code, padded to the field, then the chars
   * of the group comma-joined; a code longer than the field runs into them.
   */
  function MacosxLine(g: Group): (r: string)
    ensures |r| == (if |g.code| < CodeWidth then CodeWidth else |g.code|) + |Join(g.chars, ',')|
    ensures r[..|g.code|] == g.code
    ensures forall i :: |g.code| <= i < CodeWidth ==> r[i] == ' '
    ensures |g.code| <= CodeWidth ==> r[CodeWidth..] == Join(g.chars, ',')
    ensures |g.code| > CodeWidth ==> r == g.code + Join(g.chars, ',')
  {
    FormatLine(g.code, Join(g.chars, ','))
  }

  /**
   * A group whose code fits the field and whose chars hold no comma reads back
   * from its line: the code first, then the chars split at the commas.
   */
  lemma MacosxLineReadsBack(g: Group)
    requires g.chars != [] && |g.code| <= CodeWidth
    requires forall i :: 0 <= i < |g.chars| ==> ',' !in g.chars[i]
    ensures MacosxLine(g)[..|g.code|] == g.code
    ensures SplitOn(MacosxLine(g)[CodeWidth..], ',') == g.chars
  {
    var line := MacosxLine(g);
    var text := Join(g.chars, ',');
    assert line[CodeWidth..] == text;
    SplitOnJoin(g.chars, ',');
  }

  /** The lines between the header and the footer of the macOS table. */
  function MacosxLines(gs: seq<Group>): (r: seq<string>)
    ensures |r| == |gs|
    ensures forall i :: 0 <= i < |gs| ==> r[i] == MacosxLine(gs[i])
  {
    seq(|gs|, i requires 0 <= i < |gs| => MacosxLine(gs[i]))
  }
}
