/** The entities of the timetable generator (tk_auto_time_table_gen_.py:8-173) and the
    pure reasoning about its nested timetable: which cells are occupied, placing an
    entry, the slot batches of `set_time_slots` and the course-hours a semester asks for. */
module TimetableData {
  import opened Wrappers
  import ClockTime

  /** The two slot and room kinds the generator matches on. */
  const LECTURE: string := "lecture"
  const LAB: string := "lab"
  /** The sentinel shown for a room or faculty member when none can be chosen. */
  const TBD: string := "TBD"

  /** A catalogued course; `sections` is always empty in the source and is not kept. */
  datatype Course = Course(name: string, credits: int, lectureHours: int, labHours: int)

  /** A faculty member; the `availability` field is never read and is not kept. */
  datatype Faculty = Faculty(name: string)

  /** A degree program: its name and, per semester number, the ordered course codes. */
  datatype Program = Program(name: string, semesters: map<int, seq<string>>)

  datatype Room = Room(id: string, capacity: int, kind: string)

  datatype TimeSlot = TimeSlot(day: string, start: string, end: string, kind: string)

  /** One assigned course-hour: `session` is "Lecture" or "Lab". */
  datatype Entry = Entry(course: string, courseName: string, session: string, room: string, faculty: string)

  /** One (semester, program) sub-table: day -> "start-end" -> entry. */
  type Grid = map<string, map<string, Entry>>

  /** The whole timetable: semester -> program id -> sub-table. */
  type Timetable = map<int, map<string, Grid>>

  /** A warning the generator prints when one course-hour finds no free slot. */
  datatype Warning = Unassigned(course: string, isLab: bool)

  function SlotKind(isLab: bool): string { if isLab then LAB else LECTURE }

  function SessionName(isLab: bool): string { if isLab then "Lab" else "Lecture" }

  /** The cell key of a slot, `f"{start}-{end}"`. */
  function TimeKey(slot: TimeSlot): string { slot.start + "-" + slot.end }

  /** The elements of `s` that `keep` accepts, in order (a list comprehension with a condition). */
  function Filter<T(!new)>(s: seq<T>, keep: T -> bool): (r: seq<T>)
    ensures |r| <= |s|
    ensures forall x :: x in r <==> x in s && keep(x)
  {
    if s == [] then [] else (if keep(s[0]) then [s[0]] else []) + Filter(s[1..], keep)
  }

  /** `_is_slot_taken` on one sub-table: the slot's cell holds an entry. */
  predicate Taken(g: Grid, slot: TimeSlot)
    ensures Taken(g, slot) <==> (slot.day, TimeKey(slot)) in Cells(g)
  {
    slot.day in g && TimeKey(slot) in g[slot.day]
  }

  /** The slots of `kind` whose cell is still empty in `g` (`available_slots`). */
  function FreeSlots(slots: seq<TimeSlot>, g: Grid, kind: string): (r: seq<TimeSlot>)
    ensures |r| <= |slots|
    ensures forall s :: s in r <==> s in slots && s.kind == kind && !Taken(g, s)
  {
    Filter(slots, (s: TimeSlot) => s.kind == kind && !Taken(g, s))
  }

  /** Every slot of `kind` is taken in `g`. */
  predicate AllTaken(g: Grid, slots: seq<TimeSlot>, kind: string)
  {
    forall s :: s in slots && s.kind == kind ==> Taken(g, s)
  }

  /** The occupied cells of a sub-table. */
  ghost function Cells(g: Grid): set<(string, string)>
  {
    set d, k | d in g && k in g[d] :: (d, k)
  }

  /** Writing `entry` into cell (day, key), creating the day's column when it is missing
      (the `defaultdict(dict)` of line 71). */
  function Place(g: Grid, day: string, key: string, entry: Entry): (r: Grid)
    ensures r.Keys == g.Keys + {day}
    ensures forall d :: d in g && d != day ==> r[d] == g[d]
    ensures r[day].Keys == (if day in g then g[day].Keys else {}) + {key} && r[day][key] == entry
    ensures forall k :: day in g && k in g[day] && k != key ==> r[day][k] == g[day][k]
  {
    g[day := (if day in g then g[day] else map[])[key := entry]]
  }

  /** Every cell of `g` is still there, with the same entry, in `g'`. */
  ghost predicate Extends(g: Grid, g': Grid)
  {
    forall d, k :: d in g && k in g[d] ==> d in g' && k in g'[d] && g'[d][k] == g[d][k]
  }

  /** Placing into an empty cell adds exactly that cell, keeps every other cell and
      stores the entry there. */
  lemma PlaceAddsOneCell(g: Grid, day: string, key: string, entry: Entry)
    requires !(day in g && key in g[day])
    ensures Cells(Place(g, day, key, entry)) == Cells(g) + {(day, key)}
    ensures |Cells(Place(g, day, key, entry))| == |Cells(g)| + 1
    ensures Extends(g, Place(g, day, key, entry))
    ensures Place(g, day, key, entry)[day][key] == entry
  {
    PlaceKeepsCells(g, day, key, entry);
    PlaceCells(g, day, key, entry);
    assert (day, key) !in Cells(g);
    AddOneCard(Cells(g), (day, key));
  }

  lemma PlaceCells(g: Grid, day: string, key: string, entry: Entry)
    ensures Cells(Place(g, day, key, entry)) == Cells(g) + {(day, key)}
  {
    var g' := Place(g, day, key, entry);
    forall c | c in Cells(g')
      ensures c in Cells(g) + {(day, key)}
    {
      var (d, k) := c;
      if c != (day, key) {
        assert d in g && k in g[d];
      }
    }
    forall c | c in Cells(g)
      ensures c in Cells(g')
    {
      var (d, k) := c;
      assert d in g' && k in g'[d];
    }
  }

  lemma AddOneCard<T>(s: set<T>, x: T)
    requires x !in s
    ensures |s + {x}| == |s| + 1
  {
  }

  /** Placing into an empty cell leaves every occupied cell as it was. */
  lemma PlaceKeepsCells(g: Grid, day: string, key: string, entry: Entry)
    requires !(day in g && key in g[day])
    ensures Extends(g, Place(g, day, key, entry))
  {
    var g' := Place(g, day, key, entry);
    forall d, k | d in g && k in g[d]
      ensures d in g' && k in g'[d] && g'[d][k] == g[d][k]
    {
      assert (d, k) != (day, key);
    }
  }

  /** A kind whose slots are all taken stays so while cells are only added. */
  lemma ExtendsKeepsAllTaken(g: Grid, g': Grid, slots: seq<TimeSlot>, kind: string)
    requires AllTaken(g, slots, kind) && Extends(g, g')
    ensures AllTaken(g', slots, kind)
  {
    forall s | s in slots && s.kind == kind
      ensures Taken(g', s)
    {
      assert Taken(g, s);
    }
  }

  /** Extension is transitive. */
  lemma ExtendsTransitive(g1: Grid, g2: Grid, g3: Grid)
    requires Extends(g1, g2) && Extends(g2, g3)
    ensures Extends(g1, g3)
  {
  }

  /** The sub-table for (semester, program), empty when there is none. */
  function GridOf(t: Timetable, semester: int, programId: string): Grid
  {
    if semester in t && programId in t[semester] then t[semester][programId] else map[]
  }

  /** The timetable with the (semester, program) sub-table set to `g`, creating the
      semester's map when it is missing; every other sub-table is the same. */
  function Install(t: Timetable, semester: int, programId: string, g: Grid): (r: Timetable)
    ensures semester in r && programId in r[semester] && r[semester][programId] == g
  {
    t[semester := (if semester in t then t[semester] else map[])[programId := g]]
  }

  /** Installing a sub-table sets exactly that (semester, program) entry, creating the
      semester's map when it is missing; every other sub-table, present or absent, is the same. */
  lemma InstallFrame(t: Timetable, semester: int, programId: string, g: Grid)
    ensures Install(t, semester, programId, g).Keys == t.Keys + {semester}
    ensures Install(t, semester, programId, g)[semester].Keys ==
      (if semester in t then t[semester].Keys else {}) + {programId}
    ensures GridOf(Install(t, semester, programId, g), semester, programId) == g
    ensures forall s, p :: (s != semester || p != programId) ==>
      && (s in Install(t, semester, programId, g) && p in Install(t, semester, programId, g)[s] <==> s in t && p in t[s])
      && GridOf(Install(t, semester, programId, g), s, p) == GridOf(t, s, p)
  {
  }

  /** `len(range(n))`: a negative hour count gives no iterations. */
  function Reps(n: int): nat { if n < 0 then 0 else n }

  /** One course-hour the generator tries to place: the listed code, and whether it is a
      lab hour (`is_lab`). */
  datatype Hour = Hour(code: string, isLab: bool)

  /** `n` copies of one course-hour: the attempts of one `for _ in range(...)` loop. */
  function Repeat(h: Hour, n: nat): (r: seq<Hour>)
    ensures |r| == n && forall i :: 0 <= i < n ==> r[i] == h
  {
    seq(n, _ => h)
  }

  /** The assignment attempts one listed course code makes, in order: none for a code
      missing from the catalog, otherwise its lecture hours and then its lab hours. */
  function CourseAttempts(code: string, catalog: map<string, Course>): (r: seq<Hour>)
    ensures code !in catalog ==> r == []
    ensures code in catalog ==>
      var lectures := Reps(catalog[code].lectureHours);
      && |r| == lectures + Reps(catalog[code].labHours)
      && forall i :: 0 <= i < |r| ==> r[i] == Hour(code, i >= lectures)
  {
    if code in catalog
    then Repeat(Hour(code, false), Reps(catalog[code].lectureHours)) + Repeat(Hour(code, true), Reps(catalog[code].labHours))
    else []
  }

  /** The assignment attempts a semester's course list makes, course by course. */
  function Attempts(codes: seq<string>, catalog: map<string, Course>): seq<Hour>
  {
    if codes == [] then [] else Attempts(codes[..|codes| - 1], catalog) + CourseAttempts(codes[|codes| - 1], catalog)
  }

  /** One more listed code appends its attempts. */
  lemma AttemptsSnoc(codes: seq<string>, i: nat, catalog: map<string, Course>)
    requires i < |codes|
    ensures Attempts(codes[..i + 1], catalog) == Attempts(codes[..i], catalog) + CourseAttempts(codes[i], catalog)
  {
    assert codes[..i + 1][..i] == codes[..i];
  }

  /** Every attempt is for a listed and catalogued code. */
  lemma {:induction false} AttemptsListed(codes: seq<string>, catalog: map<string, Course>)
    ensures forall h :: h in Attempts(codes, catalog) ==> h.code in codes && h.code in catalog
  {
    if codes != [] {
      var init := codes[..|codes| - 1];
      AttemptsListed(init, catalog);
      forall h | h in Attempts(codes, catalog)
        ensures h.code in codes && h.code in catalog
      {
        if h in Attempts(init, catalog) {
          var j :| 0 <= j < |init| && init[j] == h.code;
          assert codes[j] == h.code;
        } else {
          var r := CourseAttempts(codes[|codes| - 1], catalog);
          var i :| 0 <= i < |r| && r[i] == h;
        }
      }
    }
  }

  lemma HourAppendAssoc(a: seq<Hour>, b: seq<Hour>, c: seq<Hour>)
    ensures a + b + c == a + (b + c)
  {
  }

  /** A listed code that is not in the catalog adds no attempts, at either end of the list. */
  lemma {:induction false} AttemptsSkipsUnknown(codes: seq<string>, catalog: map<string, Course>, code: string)
    requires code !in catalog
    ensures Attempts(codes + [code], catalog) == Attempts(codes, catalog)
    ensures Attempts([code] + codes, catalog) == Attempts(codes, catalog)
  {
    assert (codes + [code])[..|codes|] == codes;
    AttemptsPrepend(code, codes, catalog);
  }

  /** The attempts of a list are those of its first code followed by those of the rest. */
  lemma {:induction false} AttemptsPrepend(code: string, codes: seq<string>, catalog: map<string, Course>)
    ensures Attempts([code] + codes, catalog) == CourseAttempts(code, catalog) + Attempts(codes, catalog)
  {
    if codes != [] {
      var init, last := codes[..|codes| - 1], codes[|codes| - 1];
      assert ([code] + codes)[..|codes|] == [code] + init;
      assert Attempts([code] + codes, catalog) == Attempts([code] + init, catalog) + CourseAttempts(last, catalog);
      AttemptsPrepend(code, init, catalog);
      HourAppendAssoc(CourseAttempts(code, catalog), Attempts(init, catalog), CourseAttempts(last, catalog));
    }
  }

  /** The start time reads as "HH:MM", so `_calculate_end_time` returns. */
  predicate Parses(t: string) { ClockTime.ParseTime(t).Some? }

  /** The index of the first start time that does not read, or |starts| when all do. */
  function FirstUnparsed(starts: seq<string>): (r: nat)
    ensures r <= |starts|
  {
    if starts == [] then 0
    else if !Parses(starts[0]) then 0
    else 1 + FirstUnparsed(starts[1..])
  }

  /** Every start time before `FirstUnparsed` reads, and the one there (if any) does not. */
  lemma {:induction false} FirstUnparsedMeans(starts: seq<string>)
    ensures forall j :: 0 <= j < FirstUnparsed(starts) ==> Parses(starts[j])
    ensures FirstUnparsed(starts) < |starts| ==> !Parses(starts[FirstUnparsed(starts)])
  {
    if starts != [] && Parses(starts[0]) {
      FirstUnparsedMeans(starts[1..]);
      forall j | 0 < j < FirstUnparsed(starts)
        ensures Parses(starts[j])
      {
        assert starts[j] == starts[1..][j - 1];
      }
    }
  }

  /** `FirstUnparsed` is the position where reading first fails. */
  lemma {:induction false} FirstUnparsedAt(starts: seq<string>, j: nat)
    requires j <= |starts|
    requires forall k :: 0 <= k < j ==> Parses(starts[k])
    requires j < |starts| ==> !Parses(starts[j])
    ensures FirstUnparsed(starts) == j
  {
    if j > 0 {
      FirstUnparsedAt(starts[1..], j - 1);
    }
  }

  /** Reading one more start time: the count of leading readable start times grows by one
      when it reads, and when it does not, the first failure is there. */
  lemma {:induction false} FirstUnparsedExtend(starts: seq<string>, j: nat)
    requires j < |starts| && FirstUnparsed(starts[..j]) == j
    ensures FirstUnparsed(starts[..j + 1]) == if Parses(starts[j]) then j + 1 else j
    ensures !Parses(starts[j]) ==> FirstUnparsed(starts) == j
  {
    if j == 0 {
      assert starts[..1][1..] == [];
    } else {
      assert starts[..j][1..] == starts[1..][..j - 1];
      assert starts[..j + 1][1..] == starts[1..][..j];
      FirstUnparsedExtend(starts[1..], j - 1);
    }
  }

  /** The slots `set_time_slots` appends for one day: one per start time, in order, up to
      the first start time that does not read. */
  function DayRow(day: string, starts: seq<string>, duration: int, kind: string): seq<TimeSlot>
  {
    var n := FirstUnparsed(starts);
    FirstUnparsedMeans(starts);
    seq(n, k requires 0 <= k < n => TimeSlot(day, starts[k], ClockTime.EndTime(starts[k], duration).value, kind))
  }

  /** The slots of `set_time_slots(days, starts, duration, kind)` when every start time
      reads: days outer, start times inner. */
  function SlotBatch(days: seq<string>, starts: seq<string>, duration: int, kind: string): seq<TimeSlot>
  {
    if days == [] then []
    else SlotBatch(days[..|days| - 1], starts, duration, kind) + DayRow(days[|days| - 1], starts, duration, kind)
  }

  /** A day's row stops at the first start time that does not read. */
  lemma DayRowTruncates(day: string, starts: seq<string>, duration: int, kind: string)
    ensures DayRow(day, starts, duration, kind) == DayRow(day, starts[..FirstUnparsed(starts)], duration, kind)
  {
    var n := FirstUnparsed(starts);
    var prefix := starts[..n];
    FirstUnparsedMeans(starts);
    forall k | 0 <= k < n
      ensures Parses(prefix[k])
    {
      assert prefix[k] == starts[k];
    }
    FirstUnparsedAt(prefix, n);
  }

  /** While every start time read so far reads, one more readable start time adds its slot. */
  lemma DayRowPrefix(day: string, starts: seq<string>, j: nat, duration: int, kind: string)
    requires j < |starts| && FirstUnparsed(starts[..j]) == j
    requires ClockTime.EndTime(starts[j], duration).Some?
    ensures DayRow(day, starts[..j + 1], duration, kind) ==
      DayRow(day, starts[..j], duration, kind) + [TimeSlot(day, starts[j], ClockTime.EndTime(starts[j], duration).value, kind)]
  {
    FirstUnparsedExtend(starts, j);
    var longer := DayRow(day, starts[..j + 1], duration, kind);
    var shorter := DayRow(day, starts[..j], duration, kind);
    var slot := TimeSlot(day, starts[j], ClockTime.EndTime(starts[j], duration).value, kind);
    forall k | 0 <= k < j + 1
      ensures longer[k] == (shorter + [slot])[k]
    {
      if k < j {
        assert starts[..j + 1][k] == starts[..j][k];
      }
    }
  }

  /** Extending the days by one extends the batch by that day's row. */
  lemma SlotBatchSnoc(days: seq<string>, i: nat, starts: seq<string>, duration: int, kind: string)
    requires i < |days|
    ensures SlotBatch(days[..i + 1], starts, duration, kind) ==
      SlotBatch(days[..i], starts, duration, kind) + DayRow(days[i], starts, duration, kind)
  {
    assert days[..i + 1][..i] == days[..i];
  }

  /** A day's row holds one slot per start time before the first that does not read, the
      j-th being (day, starts[j], its end time, kind). */
  lemma DayRowAt(day: string, starts: seq<string>, duration: int, kind: string, j: nat)
    requires j < FirstUnparsed(starts)
    ensures |DayRow(day, starts, duration, kind)| == FirstUnparsed(starts)
    ensures ClockTime.EndTime(starts[j], duration).Some?
    ensures DayRow(day, starts, duration, kind)[j] ==
      TimeSlot(day, starts[j], ClockTime.EndTime(starts[j], duration).value, kind)
  {
    FirstUnparsedMeans(starts);
  }

  /** When every start time reads, the slot at position i * |starts| + j of the batch is
      (days[i], starts[j], its end time, kind). */
  lemma {:induction false} SlotBatchAt(days: seq<string>, starts: seq<string>, duration: int, kind: string, i: nat, j: nat)
    requires FirstUnparsed(starts) == |starts|
    requires i < |days| && j < |starts|
    ensures ClockTime.EndTime(starts[j], duration).Some?
    ensures var p := RowMajor(i, j, |starts|);
      && p < |SlotBatch(days, starts, duration, kind)|
      && SlotBatch(days, starts, duration, kind)[p] ==
           TimeSlot(days[i], starts[j], ClockTime.EndTime(starts[j], duration).value, kind)
  {
    var n, m := |days|, |starts|;
    var init := days[..n - 1];
    var front := SlotBatch(init, starts, duration, kind);
    var last := DayRow(days[n - 1], starts, duration, kind);
    assert SlotBatch(days, starts, duration, kind) == front + last;
    SlotBatchLength(init, starts, duration, kind);
    var p := RowMajor(i, j, m);
    if i < n - 1 {
      SlotBatchAt(init, starts, duration, kind, i, j);
      assert init[i] == days[i];
      assert (front + last)[p] == front[p];
    } else {
      assert p == |front| + j;
      DayRowAt(days[n - 1], starts, duration, kind, j);
      assert (front + last)[p] == last[j];
    }
  }

  /** The position of column j of row i in a row-major layout of rows `width` long. */
  function RowMajor(i: nat, j: nat, width: nat): nat
  {
    i * width + j
  }

  lemma {:induction false} SlotBatchLength(days: seq<string>, starts: seq<string>, duration: int, kind: string)
    requires FirstUnparsed(starts) == |starts|
    ensures |SlotBatch(days, starts, duration, kind)| == |days| * |starts|
  {
    if days != [] {
      SlotBatchLength(days[..|days| - 1], starts, duration, kind);
      assert |days| * |starts| == (|days| - 1) * |starts| + |starts|;
    }
  }

  /** A room id `_find_available_room(kind)` may return: the id of some room of that
      kind, or "TBD" when there is none. */
  predicate RoomFits(rooms: seq<Room>, kind: string, id: string)
  {
    if exists r :: r in rooms && r.kind == kind
    then exists r :: r in rooms && r.kind == kind && r.id == id
    else id == TBD
  }

  /** A name `_assign_faculty` may return: the name of some registered faculty member,
      or "TBD" when there is none. */
  predicate FacultyFits(faculty: map<string, Faculty>, name: string)
  {
    if faculty == map[] then name == TBD else exists f :: f in faculty && faculty[f].name == name
  }
}
