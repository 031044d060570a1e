/**
 * `parse_program_schedule`: the rows of the program table folded into an
 * ordered day -> (ordered time -> activity) map, with a cursor on the day
 * that rows without a day label belong to. A row is the list of its `td`
 * cell texts; the model stops at the ordered structure, before `json.dumps`.
 */
module Schedule {
  import opened Wrappers
  import opened Text
  import opened OrderedMap

  /** time -> activity, in insertion order. */
  type Slots = seq<(string, string)>

  /** day -> slots, in insertion order. */
  type Days = seq<(string, Slots)>

  /** The loop state: the days so far and `current_day` (`""` while there is none). */
  datatype Cursor = Cursor(days: Days, current: string)

  /** A day label loses all its spaces: `day_cell.replace(" ", "")`. */
  function DayLabel(cell: string): (d: string)
    ensures ' ' !in d
  {
    RemoveChar(cell, ' ')
  }

  /**
   * A cell's text is stripped, so a non-empty one keeps a character after its
   * spaces are removed and always names a day.
   */
  lemma LabelNotEmpty(cell: string)
    requires cell != "" && Stripped(cell)
    ensures DayLabel(cell) != ""
  {
    assert cell == [cell[0]] + cell[1..];
  }

  /** The slots of `day`, empty when the day is absent. */
  function SlotsOf(days: Days, day: string): Slots {
    Get(days, day).GetOr([])
  }

  /** `schedule_dict[day][time] = activity`. */
  function SetSlot(days: Days, day: string, time: string, activity: string): Days {
    Put(days, day, Put(SlotsOf(days, day), time, activity))
  }

  /** The day a row introduces: a three-cell row with a non-empty first cell. */
  function LabelOf(row: seq<string>): Option<string> {
    if |row| == 3 && row[0] != "" then Some(DayLabel(row[0])) else None
  }

  /** The (day, time, activity) a row writes, given the cursor before it; `None` for a dropped row. */
  function WriteOf(c: Cursor, row: seq<string>): Option<(string, string, string)> {
    if |row| == 3 then
      var day := if row[0] != "" then DayLabel(row[0]) else c.current;
      if day != "" then Some((day, row[1], row[2])) else None
    else if |row| == 2 && c.current != "" then Some((c.current, row[0], row[1]))
    else None
  }

  /** One iteration of the row loop. */
  function Step(c: Cursor, row: seq<string>): Cursor {
    var c1 :=
      if LabelOf(row).Some? then
        var d := LabelOf(row).value;
        Cursor(if d in Keys(c.days) then c.days else Put(c.days, d, []), d)
      else c;
    match WriteOf(c, row)
    case Some((day, time, activity)) => c1.(days := SetSlot(c1.days, day, time, activity))
    case None => c1
  }

  /** The loop over `rows`, from no days and no current day. */
  function Fold(rows: seq<seq<string>>): Cursor {
    if rows == [] then Cursor([], "") else Step(Fold(rows[..|rows| - 1]), rows[|rows| - 1])
  }

  /** The table rows after the header row (`find_all('tr')[1:]`). */
  function Body(rows: seq<seq<string>>): seq<seq<string>> {
    if rows == [] then [] else rows[1..]
  }

  /** `parse_program_schedule`: `None` when there is no table. */
  function ScheduleOf(table: Option<seq<seq<string>>>): Option<Days> {
    match table
    case None => None
    case Some(rows) => Some(Fold(Body(rows)).days)
  }

  method ParseSchedule(table: Option<seq<seq<string>>>) returns (r: Option<Days>)
    ensures r == ScheduleOf(table)
  {
    if table.None? {
      return None;
    }
    var rows := Body(table.value);
    var days: Days := [];
    var current := "";
    var i := 0;
    while i < |rows|
      invariant 0 <= i <= |rows|
      invariant Cursor(days, current) == Fold(rows[..i])
    {
      FoldSnoc(rows, i);
      days, current := ParseRow(days, current, rows[i]);
      i := i + 1;
    }
    assert rows[..i] == rows;
    r := Some(days);
  }

  /** One pass of the loop body over the cells of a row. */
  method ParseRow(days: Days, current: string, cols: seq<string>) returns (days': Days, current': string)
    ensures Cursor(days', current') == Step(Cursor(days, current), cols)
  {
    days', current' := days, current;
    if |cols| == 3 {
      var dayCell, timeCell, activityCell := cols[0], cols[1], cols[2];
      if dayCell != "" {
        current' := RemoveChar(dayCell, ' ');
        if current' !in Keys(days') {
          days' := Put(days', current', []);
        }
      }
      if current' != "" {
        days' := SetSlot(days', current', timeCell, activityCell);
      }
    } else if |cols| == 2 && current' != "" {
      days' := SetSlot(days', current', cols[0], cols[1]);
    }
  }

  lemma FoldSnoc(rows: seq<seq<string>>, i: nat)
    requires i < |rows|
    ensures Fold(rows[..i + 1]) == Step(Fold(rows[..i]), rows[i])
  {
    assert rows[..i + 1][..i] == rows[..i];
  }

  /** Distinct day keys, each without spaces, and a current day that is one of them. */
  ghost predicate WellFormed(c: Cursor) {
    && DistinctKeys(c.days)
    && (forall k :: 0 <= k < |c.days| ==> ' ' !in c.days[k].0)
    && (c.current == "" || c.current in Keys(c.days))
  }

  lemma StepWellFormed(c: Cursor, row: seq<string>)
    requires WellFormed(c)
    ensures WellFormed(Step(c, row))
    ensures Keys(Step(c, row).days) ==
      if LabelOf(row).Some? && LabelOf(row).value !in Keys(c.days) then Keys(c.days) + [LabelOf(row).value] else Keys(c.days)
  {
    var c1 :=
      if LabelOf(row).Some? then
        var d := LabelOf(row).value;
        Cursor(if d in Keys(c.days) then c.days else Put(c.days, d, []), d)
      else c;
    assert WellFormed(c1) by {
      forall k | 0 <= k < |c1.days| ensures ' ' !in c1.days[k].0 {
        assert c1.days[k].0 == Keys(c1.days)[k];
        assert Keys(c1.days)[k] in Keys(c.days) || Keys(c1.days)[k] == LabelOf(row).value;
        if Keys(c1.days)[k] in Keys(c.days) {
          var k' :| 0 <= k' < |c.days| && Keys(c.days)[k'] == Keys(c1.days)[k];
          assert ' ' !in c.days[k'].0;
        }
      }
    }
    match WriteOf(c, row)
    case Some((day, time, activity)) =>
      assert day == c1.current;
      var r := SetSlot(c1.days, day, time, activity);
      assert Keys(r) == Keys(c1.days);
      forall k | 0 <= k < |r| ensures ' ' !in r[k].0 {
        assert r[k].0 == Keys(r)[k] == Keys(c1.days)[k] == c1.days[k].0;
      }
    case None =>
  }

  lemma {:induction false} FoldWellFormed(rows: seq<seq<string>>)
    ensures WellFormed(Fold(rows))
  {
    if rows != [] {
      FoldWellFormed(rows[..|rows| - 1]);
      StepWellFormed(Fold(rows[..|rows| - 1]), rows[|rows| - 1]);
    }
  }

  /** The day labels of `rows`, in row order, repeats included. */
  function Labels(rows: seq<seq<string>>): seq<string> {
    if rows == [] then []
    else
      var last := LabelOf(rows[|rows| - 1]);
      Labels(rows[..|rows| - 1]) + (if last.Some? then [last.value] else [])
  }

  /** The first occurrence of each element of `xs`, in order. */
  function FirstOccurrences(xs: seq<string>): (r: seq<string>)
    ensures forall x :: x in r <==> x in xs
  {
    if xs == [] then []
    else
      var r := FirstOccurrences(xs[..|xs| - 1]);
      assert forall x :: x in xs <==> x in xs[..|xs| - 1] || x == xs[|xs| - 1] by {
        assert xs == xs[..|xs| - 1] + [xs[|xs| - 1]];
      }
      if xs[|xs| - 1] in r then r else r + [xs[|xs| - 1]]
  }

  /**
   * The days appear in the order of their first label; a repeated label
   * reopens its day instead of adding another.
   */
  lemma {:induction false} DaysInFirstLabelOrder(rows: seq<seq<string>>)
    ensures Keys(Fold(rows).days) == FirstOccurrences(Labels(rows))
  {
    if rows != [] {
      var init, row := rows[..|rows| - 1], rows[|rows| - 1];
      var c := Fold(init);
      DaysInFirstLabelOrder(init);
      FoldWellFormed(init);
      StepWellFormed(c, row);
      assert Fold(rows) == Step(c, row);
      var last := LabelOf(row);
      if last.Some? {
        assert Labels(rows) == Labels(init) + [last.value];
        FirstOccurrencesSnoc(Labels(init), last.value);
      } else {
        assert Labels(rows) == Labels(init);
      }
    }
  }

  lemma FirstOccurrencesSnoc(xs: seq<string>, x: string)
    ensures FirstOccurrences(xs + [x]) == if x in FirstOccurrences(xs) then FirstOccurrences(xs) else FirstOccurrences(xs) + [x]
  {
    assert (xs + [x])[..|xs|] == xs;
  }

  /** Every day key is space-free and appears once. */
  lemma DaysDistinctAndSpaceFree(rows: seq<seq<string>>)
    ensures var days := Fold(rows).days;
      DistinctKeys(days) && forall k :: 0 <= k < |days| ==> ' ' !in days[k].0
  {
    FoldWellFormed(rows);
  }

  /** What `Step` does to the slot of (`day`, `time`): the row's write sets it, anything else keeps it. */
  lemma StepSlot(c: Cursor, row: seq<string>, day: string, time: string)
    requires WellFormed(c)
    ensures Get(SlotsOf(Step(c, row).days, day), time) ==
      match WriteOf(c, row)
      case Some((d, t, a)) => if d == day && t == time then Some(a) else Get(SlotsOf(c.days, day), time)
      case None => Get(SlotsOf(c.days, day), time)
  {
    var c1 :=
      if LabelOf(row).Some? then
        var d := LabelOf(row).value;
        Cursor(if d in Keys(c.days) then c.days else Put(c.days, d, []), d)
      else c;
    assert SlotsOf(c1.days, day) == SlotsOf(c.days, day) by {
      if LabelOf(row).Some? {
        OpenDaySlots(c.days, LabelOf(row).value, day);
      }
    }
    match WriteOf(c, row)
    case Some((d, t, a)) =>
      assert Step(c, row).days == SetSlot(c1.days, d, t, a);
      SetSlotGet(c1.days, d, t, a, day, time);
    case None =>
      assert Step(c, row) == c1;
  }

  /** Opening a day, if it is new, leaves the slots of every day as they were. */
  lemma OpenDaySlots(days: Days, d: string, day: string)
    ensures SlotsOf(if d in Keys(days) then days else Put(days, d, []), day) == SlotsOf(days, day)
  {
    if d !in Keys(days) && day == d {
      assert Get(days, day) == None;
    }
  }

  /** A slot write changes (`d`, `t`) and nothing else. */
  lemma SetSlotGet(days: Days, d: string, t: string, a: string, day: string, time: string)
    ensures Get(SlotsOf(SetSlot(days, d, t, a), day), time) ==
      if d == day && t == time then Some(a) else Get(SlotsOf(days, day), time)
  {
    var slots := Put(SlotsOf(days, d), t, a);
    if d != day {
      assert Get(Put(days, d, slots), day) == Get(days, day);
    } else {
      assert Get(Put(days, d, slots), day) == Some(slots);
      assert SlotsOf(SetSlot(days, d, t, a), day) == slots;
    }
  }

  /** The write of row `j` of `rows`, given the cursor the rows before it leave. */
  function WriteAt(rows: seq<seq<string>>, j: nat): Option<(string, string, string)>
    requires j < |rows|
  {
    WriteOf(Fold(rows[..j]), rows[j])
  }

  /**
   * The activity at (`day`, `time`) is the one written by the last row that
   * writes (`day`, `time`): a repeated time overwrites the earlier activity.
   */
  lemma {:induction false} SlotIsLastWrite(rows: seq<seq<string>>, day: string, time: string)
    ensures Get(SlotsOf(Fold(rows).days, day), time) == LastWrite(rows, day, time)
  {
    if rows != [] {
      var init := rows[..|rows| - 1];
      SlotIsLastWrite(init, day, time);
      FoldWellFormed(init);
      StepSlot(Fold(init), rows[|rows| - 1], day, time);
      assert rows[..|rows| - 1] == init;
    }
  }

  /** The activity of the last row of `rows` that writes (`day`, `time`), if any. */
  function LastWrite(rows: seq<seq<string>>, day: string, time: string): Option<string> {
    if rows == [] then None
    else
      var init := rows[..|rows| - 1];
      match WriteOf(Fold(init), rows[|rows| - 1])
      case Some((d, t, a)) => if d == day && t == time then Some(a) else LastWrite(init, day, time)
      case None => LastWrite(init, day, time)
  }

  /** No row writes (`day`, `time`) exactly when there is no last write. */
  lemma {:induction false} LastWriteNone(rows: seq<seq<string>>, day: string, time: string)
    ensures LastWrite(rows, day, time).None? <==> forall j :: 0 <= j < |rows| ==> !Writes(rows, j, day, time)
  {
    if rows != [] {
      var n := |rows| - 1;
      var init := rows[..n];
      LastWriteNone(init, day, time);
      forall j | 0 <= j < n ensures Writes(rows, j, day, time) == Writes(init, j, day, time) {
        WriteAtInit(rows, j);
      }
      var w := WriteOf(Fold(init), rows[n]);
      assert WriteAt(rows, n) == w;
      if w.Some? && w.value.0 == day && w.value.1 == time {
        assert Writes(rows, n, day, time);
        assert LastWrite(rows, day, time) == Some(w.value.2);
      } else {
        assert !Writes(rows, n, day, time);
        assert LastWrite(rows, day, time) == LastWrite(init, day, time);
      }
    }
  }

  /** A last write comes from a row that writes (`day`, `time`) and that no later row overwrites. */
  lemma {:induction false} LastWriteSome(rows: seq<seq<string>>, day: string, time: string)
    requires LastWrite(rows, day, time).Some?
    ensures exists j :: IsLastWriter(rows, j, day, time) && WriteAt(rows, j).value.2 == LastWrite(rows, day, time).value
  {
    var n := |rows| - 1;
    var init := rows[..n];
    LastWriteLast(rows, day, time);
    if Writes(rows, n, day, time) {
      assert IsLastWriter(rows, n, day, time);
    } else {
      LastWriteSome(init, day, time);
      var j :| IsLastWriter(init, j, day, time) && WriteAt(init, j).value.2 == LastWrite(init, day, time).value;
      LastWriterExtends(rows, j, day, time);
    }
  }

  /** Row `j` writes (`day`, `time`) and no later row does. */
  predicate IsLastWriter(rows: seq<seq<string>>, j: nat, day: string, time: string) {
    && j < |rows| && Writes(rows, j, day, time)
    && forall j' :: j < j' < |rows| ==> !Writes(rows, j', day, time)
  }

  lemma LastWriterExtends(rows: seq<seq<string>>, j: nat, day: string, time: string)
    requires rows != [] && !Writes(rows, |rows| - 1, day, time)
    requires IsLastWriter(rows[..|rows| - 1], j, day, time)
    ensures IsLastWriter(rows, j, day, time)
    ensures WriteAt(rows, j) == WriteAt(rows[..|rows| - 1], j)
  {
    var n := |rows| - 1;
    WriteAtInit(rows, j);
    forall j' | j < j' < |rows| ensures !Writes(rows, j', day, time) {
      if j' < n {
        WriteAtInit(rows, j');
        assert !Writes(rows[..n], j', day, time);
      }
    }
  }

  /** The last row decides the last write when it writes (`day`, `time`), the rows before it otherwise. */
  lemma LastWriteLast(rows: seq<seq<string>>, day: string, time: string)
    requires rows != []
    ensures var n := |rows| - 1;
      LastWrite(rows, day, time) ==
        if Writes(rows, n, day, time) then Some(WriteAt(rows, n).value.2) else LastWrite(rows[..n], day, time)
  {
    var n := |rows| - 1;
    assert WriteAt(rows, n) == WriteOf(Fold(rows[..n]), rows[n]);
  }

  lemma WriteAtInit(rows: seq<seq<string>>, j: nat)
    requires j < |rows| - 1
    ensures WriteAt(rows, j) == WriteAt(rows[..|rows| - 1], j)
  {
    assert rows[..j] == rows[..|rows| - 1][..j];
  }

  /** Row `j` writes (`day`, `time`). */
  predicate Writes(rows: seq<seq<string>>, j: nat, day: string, time: string)
    requires j < |rows|
  {
    WriteAt(rows, j).Some? && WriteAt(rows, j).value.0 == day && WriteAt(rows, j).value.1 == time
  }

  /** A row of another arity, or one that comes before any day label, writes nothing. */
  lemma DroppedRows(c: Cursor, row: seq<string>)
    ensures |row| != 2 && |row| != 3 ==> WriteOf(c, row) == None && Step(c, row) == c
    ensures c.current == "" && (|row| == 2 || (|row| == 3 && row[0] == "")) ==> Step(c, row) == c
  {}

  /** A label not seen before opens a new last day holding just the row's slot, and moves the cursor to it. */
  lemma StepOpensDay(c: Cursor, row: seq<string>)
    requires |row| == 3 && row[0] != "" && Stripped(row[0]) && DayLabel(row[0]) !in Keys(c.days)
    ensures Step(c, row) == Cursor(c.days + [(DayLabel(row[0]), [(row[1], row[2])])], DayLabel(row[0]))
  {
    var d := DayLabel(row[0]);
    LabelNotEmpty(row[0]);
    var withDay := Put(c.days, d, []);
    PutNewKey(c.days, d, []);
    assert WriteOf(c, row) == Some((d, row[1], row[2]));
    assert SlotsOf(withDay, d) == [];
    assert Put(SlotsOf(withDay, d), row[1], row[2]) == [(row[1], row[2])];
    assert Put(withDay, d, [(row[1], row[2])]) == c.days + [(d, [(row[1], row[2])])] by {
      PutExistingKeyLast(c.days, d, [], [(row[1], row[2])]);
    }
  }

  /** A repeated label moves the cursor back to its day, which keeps its position. */
  lemma StepReopensDay(c: Cursor, row: seq<string>)
    requires |row| == 3 && row[0] != "" && Stripped(row[0]) && DayLabel(row[0]) in Keys(c.days)
    ensures Step(c, row) == Cursor(SetSlot(c.days, DayLabel(row[0]), row[1], row[2]), DayLabel(row[0]))
    ensures Keys(Step(c, row).days) == Keys(c.days)
  {
    LabelNotEmpty(row[0]);
    assert WriteOf(c, row) == Some((DayLabel(row[0]), row[1], row[2]));
  }

  /** A row with a blank day cell, or a two-cell row, writes into the current day. */
  lemma StepContinuesDay(c: Cursor, row: seq<string>)
    requires c.current != "" && ((|row| == 3 && row[0] == "") || |row| == 2)
    ensures Step(c, row) == c.(days := SetSlot(c.days, c.current, row[|row| - 2], row[|row| - 1]))
  {}
}
