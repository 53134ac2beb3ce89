/** The text view of one (semester, program) sub-table built by
    `get_semester_timetable_text` (tk_auto_time_table_gen_.py:138-173): the heading, the
    header row and the `table_data` rows handed to `tabulate`. */
module TimetableView {
  import opened TimetableData
  import opened StringOrder
  import Decimal

  const NO_TIMETABLE: string := "No timetable generated for this program/semester"
  const FREE: string := "Free"

  /** The four-line text of an occupied cell: it starts with the course name on a line of
      its own, so it never reads "Free". */
  function CellText(e: Entry): (t: string)
    ensures |t| > |e.courseName| && t[..|e.courseName|] == e.courseName && t[|e.courseName|] == '\n'
    ensures t != FREE
  {
    var t := e.courseName + "\n" + e.session + " (" + e.course + ")\n" + "Room: " + e.room + "\n" + "Faculty: " + e.faculty;
    assert t[|e.courseName|] == '\n' && '\n' !in FREE;
    t
  }

  /** The cell shown for `day` in the row of time key `key`: the entry's text when one is
      assigned there, and "Free" exactly when none is. */
  function Cell(g: Grid, day: string, key: string): (t: string)
    ensures t == FREE <==> !(day in g && key in g[day])
    ensures day in g && key in g[day] ==> t == CellText(g[day][key])
  {
    if day in g && key in g[day] then CellText(g[day][key]) else FREE
  }

  /** The time keys used on any day of the sub-table (`all_time_slots`). */
  ghost function TimeKeys(g: Grid): set<string>
  {
    set d, k | d in g && k in g[d] :: k
  }

  /** One row of `table_data`: the time key, then one cell per day. */
  function Row(g: Grid, days: seq<string>, key: string): (r: seq<string>)
    ensures |r| == |days| + 1 && r[0] == key
    ensures forall c :: 1 <= c < |days| + 1 ==> r[c] == Cell(g, days[c - 1], key)
  {
    var cells := seq(|days|, c requires 0 <= c < |days| => Cell(g, days[c], key));
    ConsIndex(key, cells);
    [key] + cells
  }

  lemma ConsIndex(x: string, s: seq<string>)
    ensures |[x] + s| == |s| + 1 && ([x] + s)[0] == x
    ensures forall c :: 1 <= c < |s| + 1 ==> ([x] + s)[c] == s[c - 1]
  {
  }

  /** `table_data`: one row per time key, in the order of `keys`. */
  function Rows(g: Grid, days: seq<string>, keys: seq<string>): (rs: seq<seq<string>>)
    ensures |rs| == |keys| && forall r :: 0 <= r < |keys| ==> rs[r] == Row(g, days, keys[r])
  {
    seq(|keys|, r requires 0 <= r < |keys| => Row(g, days, keys[r]))
  }

  /** A row built one day at a time. */
  lemma RowSnoc(g: Grid, days: seq<string>, c: nat, key: string)
    requires c < |days|
    ensures Row(g, days[..c + 1], key) == Row(g, days[..c], key) + [Cell(g, days[c], key)]
  {
  }

  /** The rows built one time key at a time. */
  lemma RowsSnoc(g: Grid, days: seq<string>, keys: seq<string>, r: nat)
    requires r < |keys|
    ensures Rows(g, days, keys[..r + 1]) == Rows(g, days, keys[..r]) + [Row(g, days, keys[r])]
  {
  }

  /** The two leading lines: the program name and semester, then fifty '='. The text
      starts with "Timetable for " and the program name, and ends with the rule line. */
  function Heading(programName: string, semester: int): (h: string)
    ensures |h| >= 14 + |programName| + 51
    ensures h[..14] == "Timetable for " && h[14..14 + |programName|] == programName
    ensures h[|h| - 51..] == seq(50, _ => '=') + "\n"
  {
    "Timetable for " + programName + " - Semester " + Decimal.IntToString(semester) + "\n" +
      seq(50, _ => '=') + "\n"
  }

  /** What `get_semester_timetable_text` returns: the placeholder message, or the heading
      with the header and rows that `tabulate` lays out as a grid. */
  datatype SemesterText =
    | Placeholder(message: string)
    | Rendered(heading: string, header: seq<string>, rows: seq<seq<string>>)

  /** `v` renders `g`: "Time" then the sorted days as header, one row per sorted time key. */
  ghost predicate RendersGrid(v: SemesterText, g: Grid, programName: string, semester: int)
  {
    && v.Rendered?
    && v.heading == Heading(programName, semester)
    && |v.header| >= 1 && v.header[0] == "Time"
    && SortedListOf(v.header[1..], g.Keys)
    && exists keys :: SortedListOf(keys, TimeKeys(g)) && v.rows == Rows(g, v.header[1..], keys)
  }

  /** Every row has one cell per header column, its first column is a time key in use
      and each day column shows that day's cell for the row's time key. */
  lemma RenderedShape(v: SemesterText, g: Grid, programName: string, semester: int)
    requires RendersGrid(v, g, programName, semester)
    ensures |v.header| == |g.Keys| + 1 && |v.rows| == |TimeKeys(g)|
    ensures forall r :: 0 <= r < |v.rows| ==> |v.rows[r]| == |v.header| && v.rows[r][0] in TimeKeys(g)
    ensures forall r, c :: 0 <= r < |v.rows| && 1 <= c < |v.header| ==>
      v.rows[r][c] == Cell(g, v.header[c], v.rows[r][0])
  {
    var days := v.header[1..];
    var keys := RenderedKeys(v, g, programName, semester);
    SortedListLength(days, g.Keys);
    SortedListLength(keys, TimeKeys(g));
    forall r | 0 <= r < |v.rows|
      ensures |v.rows[r]| == |v.header| && v.rows[r][0] in TimeKeys(g)
      ensures forall c :: 1 <= c < |v.header| ==> v.rows[r][c] == Cell(g, v.header[c], v.rows[r][0])
    {
      assert keys[r] in keys;
    }
  }

  /** The sorted time keys a rendered view was built from. */
  ghost function RenderedKeys(v: SemesterText, g: Grid, programName: string, semester: int): (keys: seq<string>)
    requires RendersGrid(v, g, programName, semester)
    ensures SortedListOf(keys, TimeKeys(g)) && v.rows == Rows(g, v.header[1..], keys)
  {
    var keys :| SortedListOf(keys, TimeKeys(g)) && v.rows == Rows(g, v.header[1..], keys); keys
  }

  /** Every assigned entry appears in the view, under its day and in its time key's row. */
  lemma RenderedShowsEveryCell(v: SemesterText, g: Grid, programName: string, semester: int, day: string, key: string)
    requires RendersGrid(v, g, programName, semester)
    requires day in g && key in g[day]
    ensures exists r, c ::
      && 0 <= r < |v.rows| && 1 <= c < |v.header|
      && v.header[c] == day && v.rows[r][0] == key
      && v.rows[r][c] == CellText(g[day][key])
  {
    var days := v.header[1..];
    var keys := RenderedKeys(v, g, programName, semester);
    assert key in TimeKeys(g);
    var r :| 0 <= r < |keys| && keys[r] == key;
    var c :| 0 <= c < |days| && days[c] == day;
    assert v.header[c + 1] == day;
    assert v.rows[r] == Row(g, days, key);
    assert v.rows[r][c + 1] == CellText(g[day][key]);
  }

  /** Two views that both render `g` are the same view: the rendering is determined. */
  lemma RenderedIsUnique(v1: SemesterText, v2: SemesterText, g: Grid, programName: string, semester: int)
    requires RendersGrid(v1, g, programName, semester) && RendersGrid(v2, g, programName, semester)
    ensures v1 == v2
  {
    SortedListUnique(v1.header[1..], v2.header[1..], g.Keys);
    assert v1.header == [v1.header[0]] + v1.header[1..];
    assert v2.header == [v2.header[0]] + v2.header[1..];
    SortedListUnique(RenderedKeys(v1, g, programName, semester), RenderedKeys(v2, g, programName, semester), TimeKeys(g));
  }
}
