/**
 * The table layout arithmetic of Ghostwriter::Writer (lib/ghostwriter/writer.rb): column widths
 * (`calculate_column_sizes`), the padded cell (`replace_table_nodes`) and the `thead` underline
 * (`add_table_header_underline`).
 */
module GhostwriterTables {
  import opened Results
  import opened RubyStrings

  // ---------------------------------------------------------------------------
  // Column widths: rows.transpose.collect(&:max)
  // ---------------------------------------------------------------------------

  /** Array#max of a non-empty array. */
  function Max(xs: seq<nat>): (m: nat)
    requires |xs| > 0
    ensures m in xs
    ensures forall i :: 0 <= i < |xs| ==> xs[i] <= m
  {
    if |xs| == 1 then xs[0]
    else
      var m := Max(xs[1..]);
      if xs[0] >= m then xs[0] else m
  }

  /** Every row has as many cells as every other. */
  predicate Rectangular(rows: seq<seq<nat>>)
  {
    forall i, j :: 0 <= i < |rows| && 0 <= j < |rows| ==> |rows[i]| == |rows[j]|
  }

  /** The c-th entry of every row. */
  function Column(rows: seq<seq<nat>>, c: nat): (r: seq<nat>)
    requires forall i :: 0 <= i < |rows| ==> c < |rows[i]|
    ensures |r| == |rows| && forall i :: 0 <= i < |rows| ==> r[i] == rows[i][c]
  {
    seq(|rows|, i requires 0 <= i < |rows| => rows[i][c])
  }

  /**
   * `column_sizes.transpose.collect(&:max)`: Array#transpose raises IndexError exactly when the rows
   * differ in length; otherwise entry c is the largest c-th entry of any row.
   */
  function ColumnSizes(rows: seq<seq<nat>>): (r: Result<seq<nat>>)
    ensures r.Raised? <==> !Rectangular(rows)
    ensures r.Raised? ==> r.error == IndexError
    ensures r.Ok? ==> |r.value| == if rows == [] then 0 else |rows[0]|
    ensures r.Ok? ==> forall i, c :: 0 <= i < |rows| && 0 <= c < |r.value| ==> rows[i][c] <= r.value[c]
    ensures r.Ok? ==> forall c :: 0 <= c < |r.value| ==> exists i :: 0 <= i < |rows| && rows[i][c] == r.value[c]
  {
    if !Rectangular(rows) then Raised(IndexError)
    else if rows == [] then Ok([])
    else
      var sizes := seq(|rows[0]|, c requires 0 <= c < |rows[0]| => Max(Column(rows, c)));
      assert forall c :: 0 <= c < |sizes| ==> sizes[c] in Column(rows, c);
      Ok(sizes)
  }

  // ---------------------------------------------------------------------------
  // Cells: "| #{inner}".squeeze(' ').ljust(width + 2)
  // ---------------------------------------------------------------------------

  lemma {:induction false} RemoveSpacesOfSpaces(n: nat)
    ensures RemoveChars(Repeat(' ', n), {' '}) == []
  {
    if n > 0 {
      assert Repeat(' ', n)[1..] == Repeat(' ', n - 1);
      RemoveSpacesOfSpaces(n - 1);
    }
  }

  lemma CellPrefix(inner: string)
    ensures StartsWith(Squeeze("| " + inner), "| ")
    ensures RemoveChars(Squeeze("| " + inner), {' '}) == "|" + RemoveChars(inner, {' '})
  {
    var content := "| " + inner;
    assert content == "|" + (" " + inner);
    SqueezeConcat("|", " " + inner);
    var tail := Squeeze(" " + inner);
    assert Squeeze("|") == "|";
    assert Squeeze(content) == "|" + tail;
    assert tail[0] == ' ';
    assert Squeeze(content)[..2] == "| ";
    SqueezeKeepsNonSpaces(content);
    RemoveCharsConcat("|", " " + inner, {' '});
    assert " " + inner == [' '] + inner;
    assert RemoveChars(" " + inner, {' '}) == RemoveChars(inner, {' '});
  }

  lemma PadKeepsNonSpaces(s: string, w: nat)
    ensures RemoveChars(LJust(s, w), {' '}) == RemoveChars(s, {' '})
  {
    if |s| < w {
      RemoveCharsConcat(s, Repeat(' ', w - |s|), {' '});
      RemoveSpacesOfSpaces(w - |s|);
    }
  }

  /**
   * The content of a rendered cell: the squeezed "| " + content, which has no double space, followed
   * only by the spaces that left-justify it to width + 2. It starts with "| ", loses nothing but
   * spaces, and is exactly width + 2 long when the cell content fits the column.
   */
  function CellMarkup(inner: string, width: nat): (r: string)
    ensures var s := Squeeze("| " + inner);
      |s| <= |r| && r[..|s|] == s && NoDoubleSpace(s) && forall k :: |s| <= k < |r| ==> r[k] == ' '
    ensures |r| >= width + 2
    ensures |inner| <= width ==> |r| == width + 2
    ensures StartsWith(r, "| ")
    ensures RemoveChars(r, {' '}) == "|" + RemoveChars(inner, {' '})
  {
    var squeezed := Squeeze("| " + inner);
    CellPrefix(inner);
    SqueezeNoDoubleSpace("| " + inner);
    PadKeepsNonSpaces(squeezed, width + 2);
    var r := LJust(squeezed, width + 2);
    assert r[..2] == squeezed[..2];
    r
  }

  // ---------------------------------------------------------------------------
  // The thead underline: "|" + widths.map { '-' * (w + 2) }.join('|') + "|"
  // ---------------------------------------------------------------------------

  function Dashes(widths: seq<nat>): (r: seq<string>)
    ensures |r| == |widths|
    ensures forall i :: 0 <= i < |widths| ==> r[i] == Repeat('-', widths[i] + 2)
  {
    seq(|widths|, i requires 0 <= i < |widths| => Repeat('-', widths[i] + 2))
  }

  /** `header_bottom` in add_table_header_underline. */
  function Underline(widths: seq<nat>): string
  {
    "|" + JoinWith(Dashes(widths), '|') + "|"
  }

  function Sum(ws: seq<nat>): nat
  {
    if ws == [] then 0 else ws[0] + Sum(ws[1..])
  }

  function TotalLength(ls: seq<string>): nat
  {
    if ls == [] then 0 else |ls[0]| + TotalLength(ls[1..])
  }

  lemma {:induction false} JoinWithLength(ls: seq<string>, sep: char)
    requires |ls| >= 1
    ensures |JoinWith(ls, sep)| == TotalLength(ls) + |ls| - 1
  {
    if |ls| > 1 {
      JoinWithLength(ls[1..], sep);
    }
  }

  lemma {:induction false} DashesLength(widths: seq<nat>)
    ensures TotalLength(Dashes(widths)) == Sum(widths) + 2 * |widths|
  {
    if widths != [] {
      assert Dashes(widths)[1..] == Dashes(widths[1..]);
      DashesLength(widths[1..]);
    }
  }

  /** For N >= 1 columns the underline is sum(w + 2) + N + 1 long: N dash runs and N + 1 pipes. */
  lemma UnderlineLength(widths: seq<nat>)
    ensures |Underline(widths)| == if widths == [] then 2 else Sum(widths) + 3 * |widths| + 1
  {
    if widths != [] {
      JoinWithLength(Dashes(widths), '|');
      DashesLength(widths);
    }
  }

  /** The widths an underline was drawn for: the length of each dash run, less the two spaces' worth. */
  function UnderlineWidths(u: string): seq<nat>
  {
    if |u| <= 2 then []
    else
      var runs := Split(u[1..|u| - 1], '|');
      seq(|runs|, i requires 0 <= i < |runs| => if |runs[i]| >= 2 then |runs[i]| - 2 else 0)
  }

  /** The underline determines the column widths it was drawn for. */
  lemma UnderlineRoundTrip(widths: seq<nat>)
    ensures UnderlineWidths(Underline(widths)) == widths
  {
    if widths != [] {
      var ds := Dashes(widths);
      var joined := JoinWith(ds, '|');
      UnderlineLong(widths);
      Inside('|', joined);
      DashesSplit(widths);
      var runs := Split(joined, '|');
      assert runs == ds;
      var r := UnderlineWidths(Underline(widths));
      assert |r| == |widths|;
      forall i | 0 <= i < |widths| ensures r[i] == widths[i] {
        assert |runs[i]| == widths[i] + 2;
      }
    }
  }

  /** An underline for at least one column is longer than its two end pipes. */
  lemma UnderlineLong(widths: seq<nat>)
    requires widths != []
    ensures |Underline(widths)| > 2
  {
    UnderlineLength(widths);
  }

  lemma Inside(c: char, m: string)
    ensures var u := [c] + m + [c]; |u| == |m| + 2 && u[1..|u| - 1] == m
  {
  }

  /** Splitting the joined dash runs at the pipes gives the runs back. */
  lemma DashesSplit(widths: seq<nat>)
    requires widths != []
    ensures Split(JoinWith(Dashes(widths), '|'), '|') == Dashes(widths)
  {
    var ds := Dashes(widths);
    forall i | 0 <= i < |ds| ensures '|' !in ds[i] {
      assert forall k :: 0 <= k < |ds[i]| ==> ds[i][k] == '-';
    }
    SplitJoin(ds, '|');
  }
}
