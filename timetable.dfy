/** `UniversityTimetableGenerator` (tk_auto_time_table_gen_.py:8-173): the catalogs, the
    slot batches, the greedy random assignment of course-hours to free slots and the text
    view of one (semester, program) sub-table. Each `random.choice` is a nondeterministic
    pick (`:|`), so every property below holds whichever element is chosen. */
module Timetable {
  import opened Wrappers
  import opened TimetableData
  import opened StringOrder
  import opened TimetableView
  import ClockTime

  /** The two `ValueError`s of `generate_semester_timetable`. */
  datatype GenerateError = ProgramNotFound | SemesterNotFound

  /** The catalogs an assignment reads: courses, faculty, rooms and time slots. */
  datatype Catalogs = Catalogs(courses: map<string, Course>, faculty: map<string, Faculty>,
                               rooms: seq<Room>, slots: seq<TimeSlot>)

  /** An entry the generator could have written into cell (day, key) with catalogs `c`:
      a catalogued course, a slot of the session's kind with that day and key, and a
      room and faculty member as the two pickers choose them. */
  ghost predicate Placed(c: Catalogs, e: Entry, day: string, key: string)
  {
    var kind := if e.session == "Lab" then LAB else LECTURE;
    && (e.session == "Lecture" || e.session == "Lab")
    && e.course in c.courses && e.courseName == c.courses[e.course].name
    && (exists s :: s in c.slots && s.day == day && TimeKey(s) == key && s.kind == kind)
    && RoomFits(c.rooms, kind, e.room)
    && FacultyFits(c.faculty, e.faculty)
  }

  /** Both kinds of slot are all taken in `g`. */
  ghost predicate Saturated(c: Catalogs, g: Grid)
  {
    AllTaken(g, c.slots, LECTURE) && AllTaken(g, c.slots, LAB)
  }

  /** One `_assign_course_slot` attempt turned sub-table `g` into `g'`: when `filled`, a
      free slot of the needed kind received the course's entry, with a room and faculty
      member as the pickers choose them; otherwise no slot of that kind was free and
      nothing changed. */
  ghost predicate Attempted(c: Catalogs, g: Grid, g': Grid, courseCode: string, course: Course, isLab: bool,
                            filled: bool, slot: TimeSlot, entry: Entry)
  {
    if filled then
      && slot in c.slots && slot.kind == SlotKind(isLab) && !Taken(g, slot)
      && entry.course == courseCode && entry.courseName == course.name && entry.session == SessionName(isLab)
      && RoomFits(c.rooms, SlotKind(isLab), entry.room) && FacultyFits(c.faculty, entry.faculty)
      && g' == Place(g, slot.day, TimeKey(slot), entry)
    else
      FreeSlots(c.slots, g, SlotKind(isLab)) == [] && g' == g
  }

  /** The attempt for course-hour `h` of a catalogued course took sub-table `g` to `g'` and
      the warnings from `w` to `w'`: a filled attempt adds no warning, an unfilled one adds
      the warning for exactly this course and kind. */
  ghost predicate Tried(c: Catalogs, g: Grid, g': Grid, w: seq<Warning>, w': seq<Warning>, h: Hour)
  {
    && h.code in c.courses
    && exists filled, slot, entry ::
         && Attempted(c, g, g', h.code, c.courses[h.code], h.isLab, filled, slot, entry)
         && w' == if filled then w else w + [Unassigned(h.code, h.isLab)]
  }

  /** Sub-table `g` and the warnings are what the attempts `hours`, made one after another
      from `g0`, can produce, whichever slots, rooms and faculty the random picks chose. */
  ghost predicate Generated(c: Catalogs, g0: Grid, g: Grid, warnings: seq<Warning>, hours: seq<Hour>)
    decreases |hours|
  {
    if hours == [] then g == g0 && warnings == []
    else exists gm: Grid, wm: seq<Warning> {:trigger Tried(c, gm, g, wm, warnings, hours[|hours| - 1])} ::
      Generated(c, g0, gm, wm, hours[..|hours| - 1]) && Tried(c, gm, g, wm, warnings, hours[|hours| - 1])
  }

  /** One more attempt extends what the attempts so far produced. */
  lemma GeneratedSnoc(c: Catalogs, g0: Grid, g: Grid, g': Grid, w: seq<Warning>, w': seq<Warning>,
                      hours: seq<Hour>, h: Hour, filled: bool, slot: TimeSlot, entry: Entry)
    requires Generated(c, g0, g, w, hours)
    requires h.code in c.courses
    requires Attempted(c, g, g', h.code, c.courses[h.code], h.isLab, filled, slot, entry)
    requires w' == if filled then w else w + [Unassigned(h.code, h.isLab)]
    ensures Generated(c, g0, g', w', hours + [h])
  {
    var hs := hours + [h];
    assert hs[..|hs| - 1] == hours && hs[|hs| - 1] == h;
    assert Tried(c, g, g', w, w', h);
  }

  /** The sub-table `g` is `g0` after the attempts `hours`, counted in aggregate: no cell
      of `g0` changed, the new cells and the warnings together number the attempts, each
      new cell holds the entry of an attempted course-hour of its session's kind as the
      generator places it, each warning is for an attempted course-hour whose kind has no
      free slot left, and nothing changes when `g0` had no free slot at all. */
  ghost predicate GrewFrom(c: Catalogs, g0: Grid, g: Grid, warnings: seq<Warning>, hours: seq<Hour>)
  {
    && Extends(g0, g)
    && |Cells(g)| + |warnings| == |Cells(g0)| + |hours|
    && (forall d, k | d in g && k in g[d] && !(d in g0 && k in g0[d]) ::
          Placed(c, g[d][k], d, k) && Hour(g[d][k].course, g[d][k].session == "Lab") in hours)
    && (forall w | w in warnings ::
          Hour(w.course, w.isLab) in hours && w.course in c.courses && AllTaken(g, c.slots, SlotKind(w.isLab)))
    && (Saturated(c, g0) ==> g == g0)
  }

  /** Zero attempts leave the sub-table as it was. */
  lemma GrewFromStart(c: Catalogs, g0: Grid)
    ensures GrewFrom(c, g0, g0, [], [])
  {
  }

  /** After the attempts every earlier cell is still occupied and at most one cell per
      attempt is new. */
  lemma GrewFromBound(c: Catalogs, g0: Grid, g: Grid, warnings: seq<Warning>, hours: seq<Hour>)
    requires GrewFrom(c, g0, g, warnings, hours)
    ensures Cells(g0) <= Cells(g)
    ensures |Cells(g)| <= |Cells(g0)| + |hours|
  {
    forall x | x in Cells(g0)
      ensures x in Cells(g)
    {
      var (d, k) := x;
      assert d in g0 && k in g0[d];
    }
  }

  /** What the attempts produced, counted in aggregate. */
  lemma {:induction false} GeneratedGrows(c: Catalogs, g0: Grid, g: Grid, warnings: seq<Warning>, hours: seq<Hour>)
    requires Generated(c, g0, g, warnings, hours)
    ensures GrewFrom(c, g0, g, warnings, hours)
    decreases |hours|
  {
    if hours == [] {
      GrewFromStart(c, g0);
    } else {
      var init, h := hours[..|hours| - 1], hours[|hours| - 1];
      LastSplit(hours);
      var gm, wm :| Generated(c, g0, gm, wm, init) && Tried(c, gm, g, wm, warnings, h);
      GeneratedGrows(c, g0, gm, wm, init);
      var filled, slot, entry :| Attempted(c, gm, g, h.code, c.courses[h.code], h.isLab, filled, slot, entry)
        && warnings == if filled then wm else wm + [Unassigned(h.code, h.isLab)];
      AttemptKeepsGrowth(c, g0, gm, g, wm, warnings, init, h, filled, slot, entry);
    }
  }

  /** One assignment attempt of a catalogued course keeps `GrewFrom`, counting one more
      attempt: a filled attempt adds one cell, an unfilled one adds its own warning. */
  lemma AttemptKeepsGrowth(c: Catalogs, g0: Grid, g: Grid, g': Grid, warnings: seq<Warning>, warnings': seq<Warning>,
                           hours: seq<Hour>, h: Hour, filled: bool, slot: TimeSlot, entry: Entry)
    requires GrewFrom(c, g0, g, warnings, hours)
    requires h.code in c.courses
    requires Attempted(c, g, g', h.code, c.courses[h.code], h.isLab, filled, slot, entry)
    requires warnings' == if filled then warnings else warnings + [Unassigned(h.code, h.isLab)]
    ensures GrewFrom(c, g0, g', warnings', hours + [h])
  {
    if filled {
      FilledKeepsGrowth(c, g0, g, warnings, hours, h, slot, entry);
    } else {
      assert AllTaken(g, c.slots, SlotKind(h.isLab));
    }
  }

  lemma FilledKeepsGrowth(c: Catalogs, g0: Grid, g: Grid, warnings: seq<Warning>,
                          hours: seq<Hour>, h: Hour, slot: TimeSlot, entry: Entry)
    requires GrewFrom(c, g0, g, warnings, hours)
    requires h.code in c.courses
    requires Attempted(c, g, Place(g, slot.day, TimeKey(slot), entry), h.code, c.courses[h.code], h.isLab, true, slot, entry)
    ensures GrewFrom(c, g0, Place(g, slot.day, TimeKey(slot), entry), warnings, hours + [h])
  {
    var g' := Place(g, slot.day, TimeKey(slot), entry);
    PlaceAddsOneCell(g, slot.day, TimeKey(slot), entry);
    ExtendsTransitive(g0, g, g');
    forall w | w in warnings
      ensures Hour(w.course, w.isLab) in hours + [h] && AllTaken(g', c.slots, SlotKind(w.isLab))
    {
      ExtendsKeepsAllTaken(g, g', c.slots, SlotKind(w.isLab));
    }
    FilledCellsPlaced(c, g0, g, warnings, hours, h, slot, entry);
    assert !Taken(g0, slot);
  }

  /** After a filled attempt every cell that `g0` lacks holds an attempted course-hour as
      the generator places it. */
  lemma FilledCellsPlaced(c: Catalogs, g0: Grid, g: Grid, warnings: seq<Warning>,
                          hours: seq<Hour>, h: Hour, slot: TimeSlot, entry: Entry)
    requires GrewFrom(c, g0, g, warnings, hours)
    requires h.code in c.courses
    requires Attempted(c, g, Place(g, slot.day, TimeKey(slot), entry), h.code, c.courses[h.code], h.isLab, true, slot, entry)
    ensures var g' := Place(g, slot.day, TimeKey(slot), entry);
      forall d, k | d in g' && k in g'[d] && !(d in g0 && k in g0[d]) ::
        Placed(c, g'[d][k], d, k) && Hour(g'[d][k].course, g'[d][k].session == "Lab") in hours + [h]
  {
    var g' := Place(g, slot.day, TimeKey(slot), entry);
    forall d, k | d in g' && k in g'[d] && !(d in g0 && k in g0[d])
      ensures Placed(c, g'[d][k], d, k) && Hour(g'[d][k].course, g'[d][k].session == "Lab") in hours + [h]
    {
      if d == slot.day && k == TimeKey(slot) {
        assert g'[d][k] == entry;
      } else {
        assert d in g && k in g[d] && g'[d][k] == g[d][k];
      }
    }
  }

  /** The catalogs of the worked example: CS101 with three lecture hours and no lab
      hours, and four lecture slots on Monday. */
  function ExampleCatalog(): Catalogs
  {
    Catalogs(map["CS101" := Course("Introduction to Programming", 3, 3, 0)], map[], [],
             [TimeSlot("Monday", "09:00", "10:00", LECTURE), TimeSlot("Monday", "10:00", "11:00", LECTURE),
              TimeSlot("Monday", "11:00", "12:00", LECTURE), TimeSlot("Monday", "12:00", "13:00", LECTURE)])
  }

  /** The worked example: generating a semester that lists only CS101, from an empty
      sub-table, fills exactly three Monday lecture cells with CS101 lectures, warns about
      nothing and leaves a lecture slot free, whichever slots the random picks chose. */
  lemma WorkedExample(g: Grid, warnings: seq<Warning>)
    requires Generated(ExampleCatalog(), map[], g, warnings, Attempts(["CS101"], ExampleCatalog().courses))
    ensures warnings == [] && |Cells(g)| == 3
    ensures forall d, k | d in g && k in g[d] :: d == "Monday" && g[d][k].course == "CS101" && g[d][k].session == "Lecture"
    ensures FreeSlots(ExampleCatalog().slots, g, LECTURE) != []
  {
    var hours := Attempts(["CS101"], ExampleCatalog().courses);
    ExampleAttempts();
    GeneratedGrows(ExampleCatalog(), map[], g, warnings, hours);
    ExampleCounts(g, warnings, hours);
    ExampleCells(g, warnings, hours);
  }

  /** Three lecture attempts over four lecture slots: no warning, and a slot stays free. */
  lemma ExampleCounts(g: Grid, warnings: seq<Warning>, hours: seq<Hour>)
    requires GrewFrom(ExampleCatalog(), map[], g, warnings, hours)
    requires |hours| == 3 && forall h :: h in hours ==> h == Hour("CS101", false)
    ensures warnings == [] && |Cells(g)| == 3
    ensures FreeSlots(ExampleCatalog().slots, g, LECTURE) != []
  {
    var slots := ExampleCatalog().slots;
    assert |Cells(map[])| == 0;
    if FreeSlots(slots, g, LECTURE) == [] {
      assert AllTaken(g, slots, LECTURE);
      ExampleCellsDistinct(g);
      assert false;
    }
    if warnings != [] {
      var w := warnings[0];
      assert w in warnings && !w.isLab;
      ExampleCellsDistinct(g);
      assert false;
    }
  }

  /** Every cell the three attempts fill is a Monday CS101 lecture. */
  lemma ExampleCells(g: Grid, warnings: seq<Warning>, hours: seq<Hour>)
    requires GrewFrom(ExampleCatalog(), map[], g, warnings, hours)
    requires forall h :: h in hours ==> h == Hour("CS101", false)
    ensures forall d, k | d in g && k in g[d] :: d == "Monday" && g[d][k].course == "CS101" && g[d][k].session == "Lecture"
  {
    forall d, k | d in g && k in g[d]
      ensures d == "Monday" && g[d][k].course == "CS101" && g[d][k].session == "Lecture"
    {
      ExampleCell(ExampleCatalog(), g[d][k], d, k, hours);
    }
  }

  lemma ExampleCell(c: Catalogs, e: Entry, d: string, k: string, hours: seq<Hour>)
    requires c == ExampleCatalog()
    requires Placed(c, e, d, k) && Hour(e.course, e.session == "Lab") in hours
    requires forall h :: h in hours ==> h == Hour("CS101", false)
    ensures d == "Monday" && e.course == "CS101" && e.session == "Lecture"
  {
    ExampleSlotsOnMonday();
    var s :| s in c.slots && s.day == d && TimeKey(s) == k && s.kind == LECTURE;
  }

  lemma ExampleSlotsOnMonday()
    ensures forall t :: t in ExampleCatalog().slots ==> t.day == "Monday"
  {
  }

  /** The example's course list asks for three CS101 lecture hours. */
  lemma ExampleAttempts()
    ensures var hours := Attempts(["CS101"], ExampleCatalog().courses);
      |hours| == 3 && forall h :: h in hours ==> h == Hour("CS101", false)
  {
    assert ["CS101"][..0] == [];
  }

  /** With every Monday lecture slot of the example taken, the sub-table has at least
      four occupied cells. */
  lemma ExampleCellsDistinct(g: Grid)
    requires AllTaken(g, ExampleCatalog().slots, LECTURE)
    ensures |Cells(g)| >= 4
  {
    var slots := ExampleCatalog().slots;
    var keys := seq(4, i requires 0 <= i < 4 => TimeKey(slots[i]));
    forall i | 0 <= i < 4
      ensures ("Monday", keys[i]) in Cells(g)
    {
      assert slots[i] in slots && Taken(g, slots[i]);
    }
    assert keys[0][1] == '9' && keys[1][1] == '0' && keys[2][1] == '1' && keys[3][1] == '2';
    var four := {("Monday", keys[0]), ("Monday", keys[1]), ("Monday", keys[2]), ("Monday", keys[3])};
    assert |four| == 4;
    SubsetCard(four, Cells(g));
  }

  lemma SubsetCard<T>(a: set<T>, b: set<T>)
    requires a <= b
    ensures |a| <= |b|
  {
    assert b == a + (b - a);
  }

  class UniversityTimetableGenerator {
    var courses: map<string, Course>
    var faculty: map<string, Faculty>
    var programs: map<string, Program>
    var rooms: seq<Room>
    var timeSlots: seq<TimeSlot>
    var timetable: Timetable

    /** Every generated sub-table belongs to a registered program: programs are only
        ever added or overwritten, and a sub-table is created only for a known program. */
    ghost predicate Valid()
      reads this`timetable, this`programs
    {
      forall s, p :: s in timetable && p in timetable[s] ==> p in programs
    }

    /** The catalogs as they stand. */
    function Catalog(): Catalogs
      reads this`courses, this`faculty, this`rooms, this`timeSlots
    {
      Catalogs(courses, faculty, rooms, timeSlots)
    }

    constructor ()
      ensures Valid()
      ensures courses == map[] && faculty == map[] && programs == map[]
      ensures rooms == [] && timeSlots == [] && timetable == map[]
    {
      courses, faculty, programs := map[], map[], map[];
      rooms, timeSlots := [], [];
      timetable := map[];
    }

    /** `add_course`: inserts or overwrites exactly the entry for `code`. */
    method AddCourse(code: string, name: string, credits: int, lectureHours: int, labHours: int := 0)
      requires Valid()
      modifies this`courses
      ensures Valid()
      ensures courses == old(courses)[code := Course(name, credits, lectureHours, labHours)]
    {
      courses := courses[code := Course(name, credits, lectureHours, labHours)];
    }

    /** `add_faculty`: inserts or overwrites exactly the entry for `facultyId`. */
    method AddFaculty(facultyId: string, name: string)
      requires Valid()
      modifies this`faculty
      ensures Valid()
      ensures faculty == old(faculty)[facultyId := Faculty(name)]
    {
      faculty := faculty[facultyId := Faculty(name)];
    }

    /** `add_program`: inserts or overwrites exactly the entry for `programId`; the course
        lists are not checked against the catalog. */
    method AddProgram(programId: string, name: string, semesters: map<int, seq<string>>)
      requires Valid()
      modifies this`programs
      ensures Valid()
      ensures programs == old(programs)[programId := Program(name, semesters)]
    {
      programs := programs[programId := Program(name, semesters)];
    }

    /** `add_room`: appends one room; ids are not required to be unique. */
    method AddRoom(roomId: string, capacity: int, roomType: string := LECTURE)
      requires Valid()
      modifies this`rooms
      ensures Valid()
      ensures rooms == old(rooms) + [Room(roomId, capacity, roomType)]
    {
      rooms := rooms + [Room(roomId, capacity, roomType)];
    }

    /** `set_time_slots`: appends one slot per (day, start time), days outer and start times
        inner. A start time that does not read raises (`ok` false) after the slots before it
        have been appended; as every day uses the same start times, that happens on the
        first day. */
    method SetTimeSlots(days: seq<string>, startTimes: seq<string>, duration: int, slotType: string := LECTURE)
      returns (ok: bool)
      requires Valid()
      modifies this`timeSlots
      ensures Valid()
      ensures ok <==> days == [] || FirstUnparsed(startTimes) == |startTimes|
      ensures ok ==> timeSlots == old(timeSlots) + SlotBatch(days, startTimes, duration, slotType)
      ensures !ok ==> timeSlots == old(timeSlots) + DayRow(days[0], startTimes, duration, slotType)
    {
      for i := 0 to |days|
        invariant i > 0 ==> FirstUnparsed(startTimes) == |startTimes|
        invariant timeSlots == old(timeSlots) + SlotBatch(days[..i], startTimes, duration, slotType)
      {
        var dayOk := AppendDaySlots(days[i], startTimes, duration, slotType);
        if !dayOk {
          assert i == 0 && days[..0] == [];
          return false;
        }
        SlotBatchSnoc(days, i, startTimes, duration, slotType);
      }
      assert days[..|days|] == days;
      ok := true;
    }

    /** The inner loop of `set_time_slots` for one day: one slot per start time, in order,
        stopping (`ok` false) at the first start time that does not read. */
    method AppendDaySlots(day: string, startTimes: seq<string>, duration: int, slotType: string)
      returns (ok: bool)
      modifies this`timeSlots
      ensures ok <==> FirstUnparsed(startTimes) == |startTimes|
      ensures timeSlots == old(timeSlots) + DayRow(day, startTimes, duration, slotType)
    {
      for j := 0 to |startTimes|
        invariant FirstUnparsed(startTimes[..j]) == j
        invariant timeSlots == old(timeSlots) + DayRow(day, startTimes[..j], duration, slotType)
      {
        var end := ClockTime.EndTime(startTimes[j], duration);
        FirstUnparsedExtend(startTimes, j);
        if end.None? {
          DayRowTruncates(day, startTimes, duration, slotType);
          return false;
        }
        DayRowPrefix(day, startTimes, j, duration, slotType);
        timeSlots := timeSlots + [TimeSlot(day, startTimes[j], end.value, slotType)];
      }
      assert startTimes[..|startTimes|] == startTimes;
      ok := true;
    }

    /** `_is_slot_taken`: the slot's cell of the (semester, program) sub-table is occupied. */
    predicate IsSlotTaken(semester: int, programId: string, slot: TimeSlot)
      reads this
      ensures IsSlotTaken(semester, programId, slot) <==> Taken(GridOf(timetable, semester, programId), slot)
      ensures IsSlotTaken(semester, programId, slot) <==>
        (slot.day, TimeKey(slot)) in Cells(GridOf(timetable, semester, programId))
    {
      semester in timetable && programId in timetable[semester] &&
        slot.day in timetable[semester][programId] && TimeKey(slot) in timetable[semester][programId][slot.day]
    }

    /** `_find_available_room`: a random room of the kind, or "TBD" when there is none. */
    method FindAvailableRoom(roomType: string) returns (id: string)
      ensures RoomFits(rooms, roomType, id)
    {
      var matching := Filter(rooms, (r: Room) => r.kind == roomType);
      if matching == [] {
        id := TBD;
      } else {
        var i :| 0 <= i < |matching|;
        assert matching[i] in matching;
        id := matching[i].id;
      }
    }

    /** `_assign_faculty`: a random registered faculty member's name, whatever the course,
        or "TBD" when there is none. */
    method AssignFaculty(courseCode: string) returns (name: string)
      ensures FacultyFits(faculty, name)
    {
      if faculty == map[] {
        name := TBD;
      } else {
        var f :| f in faculty;
        name := faculty[f].name;
      }
    }

    /** `_assign_course_slot`: picks a random free slot of the needed kind and writes one
        entry there; with no free slot it only warns (`filled` false) and changes nothing.
        An occupied cell is never written, and only this sub-table changes. */
    method AssignCourseSlot(programId: string, semester: int, courseCode: string, isLab: bool, course: Course)
      returns (filled: bool, ghost slot: TimeSlot, ghost entry: Entry)
      requires Valid()
      requires semester in timetable && programId in timetable[semester]
      modifies this`timetable
      ensures Valid()
      ensures semester in timetable && programId in timetable[semester]
      ensures filled <==> FreeSlots(timeSlots, old(timetable[semester][programId]), SlotKind(isLab)) != []
      ensures !filled ==> timetable == old(timetable)
      ensures timetable == Install(old(timetable), semester, programId, timetable[semester][programId])
      ensures Attempted(Catalog(), old(timetable[semester][programId]), timetable[semester][programId],
                        courseCode, course, isLab, filled, slot, entry)
    {
      var slotType := SlotKind(isLab);
      var g := timetable[semester][programId];
      var available := FreeSlots(timeSlots, g, slotType);
      if available == [] {
        slot, entry := TimeSlot("", "", "", ""), Entry("", "", "", "", "");
        InstallUnchanged(timetable, semester, programId);
        return false, slot, entry;
      }
      var i :| 0 <= i < |available|;
      var chosen := available[i];
      assert chosen in available;
      var room := FindAvailableRoom(slotType);
      var name := AssignFaculty(courseCode);
      var e := Entry(courseCode, course.name, SessionName(isLab), room, name);
      var day := chosen.day;
      var timeKey := chosen.start + "-" + chosen.end;
      var column := if day in g then g[day] else map[];
      if timeKey !in column {
        timetable := timetable[semester := timetable[semester][programId := g[day := column[timeKey := e]]]];
      }
      filled, slot, entry := true, chosen, e;
    }

    /** One `for _ in range(hours)` loop of `generate_semester_timetable`: `hours` attempts
        (none when negative) to place a session of the catalogued course `code`, each
        collecting its warning when it finds no free slot. */
    method AssignHours(programId: string, semester: int, code: string, isLab: bool, course: Course,
                       hours: int, warnings: seq<Warning>,
                       ghost c: Catalogs, ghost g0: Grid, ghost done: seq<Hour>)
      returns (warnings': seq<Warning>)
      requires Valid()
      requires semester in timetable && programId in timetable[semester]
      requires c == Catalog()
      requires code in courses && course == courses[code]
      requires Generated(c, g0, timetable[semester][programId], warnings, done)
      modifies this`timetable
      ensures Valid()
      ensures semester in timetable && programId in timetable[semester]
      ensures timetable == Install(old(timetable), semester, programId, timetable[semester][programId])
      ensures Generated(c, g0, timetable[semester][programId], warnings', done + Repeat(Hour(code, isLab), Reps(hours)))
    {
      warnings' := warnings;
      InstallUnchanged(timetable, semester, programId);
      ghost var hour := Hour(code, isLab);
      assert done + Repeat(hour, 0) == done;
      for h := 0 to Reps(hours)
        invariant Valid()
        invariant semester in timetable && programId in timetable[semester]
        invariant timetable == Install(old(timetable), semester, programId, timetable[semester][programId])
        invariant c == Catalog()
        invariant Generated(c, g0, timetable[semester][programId], warnings', done + Repeat(hour, h))
      {
        ghost var t := timetable;
        ghost var w := warnings';
        var filled, slot, entry := AssignCourseSlot(programId, semester, code, isLab, course);
        if !filled {
          warnings' := warnings' + [Unassigned(code, isLab)];
        }
        GeneratedSnoc(c, g0, t[semester][programId], timetable[semester][programId], w, warnings',
                      done + Repeat(hour, h), hour, filled, slot, entry);
        RepeatSnoc(done, hour, h);
        InstallTwice(old(timetable), semester, programId, t[semester][programId], timetable[semester][programId]);
      }
    }

    /** One pass of the course loop of `generate_semester_timetable`: a code missing from
        the catalog is skipped; otherwise the course's lecture hours and then its lab
        hours are attempted. */
    method AssignCourseHours(programId: string, semester: int, code: string, warnings: seq<Warning>,
                             ghost c: Catalogs, ghost g0: Grid, ghost done: seq<Hour>)
      returns (warnings': seq<Warning>)
      requires Valid()
      requires semester in timetable && programId in timetable[semester]
      requires c == Catalog()
      requires Generated(c, g0, timetable[semester][programId], warnings, done)
      modifies this`timetable
      ensures Valid()
      ensures semester in timetable && programId in timetable[semester]
      ensures timetable == Install(old(timetable), semester, programId, timetable[semester][programId])
      ensures Generated(c, g0, timetable[semester][programId], warnings', done + CourseAttempts(code, courses))
    {
      if code !in courses {
        InstallUnchanged(timetable, semester, programId);
        assert done + [] == done;
        return warnings;
      }
      var course := courses[code];
      ghost var lectures := Repeat(Hour(code, false), Reps(course.lectureHours));
      ghost var labs := Repeat(Hour(code, true), Reps(course.labHours));
      ghost var t := timetable;
      warnings' := AssignHours(programId, semester, code, false, course, course.lectureHours, warnings, c, g0, done);
      InstallTwice(old(timetable), semester, programId, t[semester][programId], timetable[semester][programId]);
      t := timetable;
      warnings' := AssignHours(programId, semester, code, true, course, course.labHours, warnings', c, g0,
                               done + lectures);
      InstallTwice(old(timetable), semester, programId, t[semester][programId], timetable[semester][programId]);
      HourAppendAssoc(done, lectures, labs);
    }

    /** `generate_semester_timetable`: checks the program and then the semester before
        touching the timetable, makes sure the (semester, program) sub-table exists, and
        then for every catalogued course of the semester attempts its lecture hours and
        then its lab hours, in the order of the course list; only that sub-table changes. */
    method GenerateSemesterTimetable(programId: string, semester: int)
      returns (outcome: Outcome<GenerateError>, warnings: seq<Warning>)
      requires Valid()
      modifies this`timetable
      ensures Valid()
      ensures programId !in programs ==>
        outcome == Fail(ProgramNotFound) && warnings == [] && timetable == old(timetable)
      ensures programId in programs && semester !in programs[programId].semesters ==>
        outcome == Fail(SemesterNotFound) && warnings == [] && timetable == old(timetable)
      ensures programId in programs && semester in programs[programId].semesters ==>
        var codes := programs[programId].semesters[semester];
        && outcome == Pass
        && semester in timetable && programId in timetable[semester]
        && timetable == Install(old(timetable), semester, programId, timetable[semester][programId])
        && Generated(Catalog(), GridOf(old(timetable), semester, programId), timetable[semester][programId],
                     warnings, Attempts(codes, courses))
    {
      warnings := [];
      if programId !in programs {
        return Fail(ProgramNotFound), warnings;
      }
      if semester !in programs[programId].semesters {
        return Fail(SemesterNotFound), warnings;
      }
      var codes := programs[programId].semesters[semester];
      ghost var g0 := GridOf(timetable, semester, programId);
      ghost var c := Catalog();
      if semester !in timetable {
        timetable := timetable[semester := map[]];
      }
      if programId !in timetable[semester] {
        timetable := timetable[semester := timetable[semester][programId := map[]]];
      }
      if semester in old(timetable) && programId in old(timetable)[semester] {
        InstallUnchanged(old(timetable), semester, programId);
      }
      assert timetable == Install(old(timetable), semester, programId, g0);
      for i := 0 to |codes|
        invariant Valid()
        invariant semester in timetable && programId in timetable[semester]
        invariant timetable == Install(old(timetable), semester, programId, timetable[semester][programId])
        invariant c == Catalog() && programs == old(programs)
        invariant Generated(c, g0, timetable[semester][programId], warnings, Attempts(codes[..i], c.courses))
      {
        var code := codes[i];
        ghost var t := timetable;
        warnings := AssignCourseHours(programId, semester, code, warnings, c, g0, Attempts(codes[..i], c.courses));
        InstallTwice(old(timetable), semester, programId, t[semester][programId], timetable[semester][programId]);
        AttemptsSnoc(codes, i, c.courses);
      }
      assert codes[..|codes|] == codes;
      outcome := Pass;
    }

    /** The inner loop of `get_semester_timetable_text` for one time key: the key, then
        each day's cell in the order of `days`. */
    method TimeRow(g: Grid, days: seq<string>, key: string) returns (row: seq<string>)
      requires forall d :: d in days ==> d in g
      ensures row == Row(g, days, key)
    {
      row := [key];
      for c := 0 to |days|
        invariant row == Row(g, days[..c], key)
      {
        var column := g[days[c]];
        var cell := if key in column then CellText(column[key]) else FREE;
        RowSnoc(g, days, c, key);
        row := row + [cell];
      }
      assert days[..|days|] == days;
    }

    /** `get_semester_timetable_text`: the placeholder exactly when no sub-table exists for
        (semester, program); otherwise the heading, "Time" and the sorted days as header,
        and one row per sorted time key with each day's cell or "Free". */
    method GetSemesterTimetableText(programId: string, semester: int) returns (v: SemesterText)
      requires Valid()
      ensures v.Placeholder? <==> !(semester in timetable && programId in timetable[semester])
      ensures v.Placeholder? ==> v.message == NO_TIMETABLE
      ensures v.Rendered? ==> RendersGrid(v, timetable[semester][programId], programs[programId].name, semester)
    {
      if semester !in timetable || programId !in timetable[semester] {
        return Placeholder(NO_TIMETABLE);
      }
      var g := timetable[semester][programId];
      var heading := Heading(programs[programId].name, semester);
      var days := SortedList(g.Keys);
      var header := ["Time"] + days;
      var allKeys: set<string> := {};
      for i := 0 to |days|
        invariant allKeys == set j, k | 0 <= j < i && k in g[days[j]] :: k
      {
        allKeys := allKeys + g[days[i]].Keys;
      }
      KeysOfAllDays(g, days, allKeys);
      var keys := SortedList(allKeys);
      var table: seq<seq<string>> := [];
      for r := 0 to |keys|
        invariant table == Rows(g, days, keys[..r])
      {
        var row := TimeRow(g, days, keys[r]);
        RowsSnoc(g, days, keys, r);
        table := table + [row];
      }
      assert keys[..|keys|] == keys;
      v := Rendered(heading, header, table);
      RenderedFromParts(v, g, programs[programId].name, semester, days, keys);
    }
  }

  /** The keys collected over every day of the sub-table are its time keys. */
  lemma KeysOfAllDays(g: Grid, days: seq<string>, allKeys: set<string>)
    requires SortedListOf(days, g.Keys)
    requires allKeys == set j, k | 0 <= j < |days| && k in g[days[j]] :: k
    ensures allKeys == TimeKeys(g)
  {
    forall k | k in TimeKeys(g)
      ensures k in allKeys
    {
      var d :| d in g && k in g[d];
      var j :| 0 <= j < |days| && days[j] == d;
    }
  }

  /** A view assembled from the heading, "Time" and the sorted days, and the rows of the
      sorted time keys renders the sub-table. */
  lemma RenderedFromParts(v: SemesterText, g: Grid, programName: string, semester: int,
                          days: seq<string>, keys: seq<string>)
    requires SortedListOf(days, g.Keys) && SortedListOf(keys, TimeKeys(g))
    requires v == Rendered(Heading(programName, semester), ["Time"] + days, Rows(g, days, keys))
    ensures RendersGrid(v, g, programName, semester)
  {
    assert v.header[1..] == days;
  }

  lemma LastSplit(hours: seq<Hour>)
    requires hours != []
    ensures hours == hours[..|hours| - 1] + [hours[|hours| - 1]]
  {
  }

  lemma RepeatSnoc(done: seq<Hour>, hour: Hour, n: nat)
    ensures done + Repeat(hour, n) + [hour] == done + Repeat(hour, n + 1)
  {
    assert Repeat(hour, n) + [hour] == Repeat(hour, n + 1);
  }

  /** Installing twice at the same place keeps only the second sub-table. */
  lemma InstallTwice(t: Timetable, semester: int, programId: string, g: Grid, g': Grid)
    ensures Install(Install(t, semester, programId, g), semester, programId, g') == Install(t, semester, programId, g')
  {
    var m := if semester in t then t[semester] else map[];
    assert m[programId := g][programId := g'] == m[programId := g'];
  }

  /** A sub-table that already existed and is installed again leaves the timetable as it was. */
  lemma InstallUnchanged(t: Timetable, semester: int, programId: string)
    requires semester in t && programId in t[semester]
    ensures Install(t, semester, programId, t[semester][programId]) == t
  {
    assert t[semester][programId := t[semester][programId]] == t[semester];
  }
}
