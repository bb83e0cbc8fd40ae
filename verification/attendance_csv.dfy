/**
 * Saving attendance at the end of a session (p1.py:91-95). The date and the
 * time come from the wall clock and are inputs. The CSV file is modelled as
 * its list of lines, or `None` while it does not exist; quoting and the
 * rendering of a line as text are left to the CSV writer.
 */
module AttendanceCsv {
  import opened Wrappers

  /** A line of the file: the `Name,Date,Time` header or one record. */
  datatype Line = Header | Record(name: string, date: string, time: string)

  /** What the end of a session writes. */
  datatype Emission = NoWrite | Append(header: bool, records: seq<Line>)

  /** `pd.DataFrame(attendance)` with the `Date` and `Time` columns set to one value each. */
  function Records(attendance: seq<string>, date: string, time: string): (r: seq<Line>)
    ensures |r| == |attendance|
    ensures forall i :: 0 <= i < |r| ==>
      r[i].Record? && r[i].name == attendance[i] && r[i].date == date && r[i].time == time
  {
    seq(|attendance|, i requires 0 <= i < |attendance| => Record(attendance[i], date, time))
  }

  /**
   * Nothing when attendance is empty; otherwise one record per name in list
   * order, all stamped with the same date and time, and a header only when
   * the file did not exist.
   */
  function Emit(attendance: seq<string>, fileExists: bool, date: string, time: string): (e: Emission)
    ensures e.NoWrite? <==> attendance == []
    ensures e.Append? ==> e.header == !fileExists && |e.records| == |attendance|
    ensures e.Append? ==> forall i :: 0 <= i < |attendance| ==>
      e.records[i] == Record(attendance[i], date, time)
  {
    if attendance == [] then NoWrite else Append(!fileExists, Records(attendance, date, time))
  }

  /** Appending to the file (`mode='a'`), which creates it when it is missing. */
  function Apply(file: Option<seq<Line>>, e: Emission): (r: Option<seq<Line>>)
    ensures e.NoWrite? ==> r == file
    ensures e.Append? ==> r.Some?
    ensures e.Append? && file.Some? ==> |file.value| <= |r.value| && r.value[..|file.value|] == file.value
    ensures e.Append? ==> |r.value| == (if file.Some? then |file.value| else 0) + (if e.header then 1 else 0) + |e.records|
  {
    match e
    case NoWrite => file
    case Append(header, records) =>
      var existing := if file.Some? then file.value else [];
      Some(existing + (if header then [Header] else []) + records)
  }

  /** The end of one session: decide from the file's existence, then append. */
  function Save(file: Option<seq<Line>>, attendance: seq<string>, date: string, time: string): Option<seq<Line>>
  {
    Apply(file, Emit(attendance, file.Some?, date, time))
  }

  /** What one session leaves to be saved: its attendance and the clock readings. */
  datatype Session = Session(attendance: seq<string>, date: string, time: string)

  /** Saving a number of sessions, one after the other. */
  function SaveAll(file: Option<seq<Line>>, sessions: seq<Session>): Option<seq<Line>>
    decreases |sessions|
  {
    if sessions == [] then file
    else
      var s := sessions[|sessions| - 1];
      Save(SaveAll(file, sessions[..|sessions| - 1]), s.attendance, s.date, s.time)
  }

  /** The records the sessions produce, in order. */
  function AllRecords(sessions: seq<Session>): seq<Line>
    decreases |sessions|
  {
    if sessions == [] then []
    else
      var s := sessions[|sessions| - 1];
      AllRecords(sessions[..|sessions| - 1]) + Records(s.attendance, s.date, s.time)
  }

  /** Every session recorded nobody. */
  predicate AllEmpty(sessions: seq<Session>) {
    forall k :: 0 <= k < |sessions| ==> sessions[k].attendance == []
  }

  /** Saving one more session appends its records, and a header first only if there was no file. */
  lemma SaveAppends(file: Option<seq<Line>>, s: Session)
    ensures s.attendance == [] ==> Save(file, s.attendance, s.date, s.time) == file
    ensures s.attendance != [] ==>
      Save(file, s.attendance, s.date, s.time) ==
      Some((if file.Some? then file.value else [Header]) + Records(s.attendance, s.date, s.time))
  {
    if s.attendance != [] {
      var records := Records(s.attendance, s.date, s.time);
      if file.Some? {
        assert file.value + [] + records == file.value + records;
      } else {
        assert [] + [Header] + records == [Header] + records;
      }
    }
  }

  /** Unfolds saving by its last session. */
  lemma SaveAllSnoc(file: Option<seq<Line>>, before: seq<Session>, s: Session)
    ensures SaveAll(file, before + [s]) == Save(SaveAll(file, before), s.attendance, s.date, s.time)
  {
    var sessions := before + [s];
    assert sessions[..|sessions| - 1] == before;
  }

  lemma AllEmptySnoc(before: seq<Session>, s: Session)
    ensures AllEmpty(before + [s]) <==> AllEmpty(before) && s.attendance == []
  {
    var sessions := before + [s];
    assert forall k :: 0 <= k < |before| ==> before[k] == sessions[k];
    assert sessions[|before|] == s;
  }

  /**
   * Starting from an existing file, sessions only append their records:
   * no header is ever added.
   */
  lemma {:induction false} SaveAllToExistingFile(lines: seq<Line>, sessions: seq<Session>)
    ensures SaveAll(Some(lines), sessions) == Some(lines + AllRecords(sessions))
    decreases |sessions|
  {
    if sessions == [] {
      assert lines + [] == lines;
    } else {
      var before, s := sessions[..|sessions| - 1], sessions[|sessions| - 1];
      assert before + [s] == sessions;
      SaveAllToExistingFile(lines, before);
      ExistingFileStep(Some(lines), lines, before, s);
    }
  }

  /** Saving onto an existing file appends the session's records, which are none when it recorded nobody. */
  lemma SaveOntoExisting(prior: seq<Line>, s: Session)
    ensures Save(Some(prior), s.attendance, s.date, s.time) == Some(prior + Records(s.attendance, s.date, s.time))
  {
    SaveAppends(Some(prior), s);
    if s.attendance == [] {
      assert prior + Records(s.attendance, s.date, s.time) == prior;
    }
  }

  /** Once the file exists, the next session only appends its records. */
  lemma ExistingFileStep(file: Option<seq<Line>>, lines: seq<Line>, before: seq<Session>, s: Session)
    requires SaveAll(file, before) == Some(lines + AllRecords(before))
    ensures SaveAll(file, before + [s]) == Some(lines + AllRecords(before + [s]))
  {
    SaveAllSnoc(file, before, s);
    SaveOntoExisting(lines + AllRecords(before), s);
    AllRecordsSnoc(before, s);
    AppendRegroup(lines, AllRecords(before), Records(s.attendance, s.date, s.time));
  }

  lemma AppendRegroup(lines: seq<Line>, earlier: seq<Line>, added: seq<Line>)
    ensures (lines + earlier) + added == lines + (earlier + added)
  {
  }

  /** Sessions that record nobody emit no records and leave the file as it was. */
  lemma {:induction false} EmptySessionsWriteNothing(file: Option<seq<Line>>, sessions: seq<Session>)
    requires AllEmpty(sessions)
    ensures AllRecords(sessions) == [] && SaveAll(file, sessions) == file
    decreases |sessions|
  {
    if sessions != [] {
      var before, s := sessions[..|sessions| - 1], sessions[|sessions| - 1];
      assert before + [s] == sessions;
      AllEmptySnoc(before, s);
      EmptySessionsWriteNothing(file, before);
      SaveAllSnoc(file, before, s);
      AllRecordsSnoc(before, s);
      SaveAppends(file, s);
    }
  }

  /**
   * Starting with no file, sessions that record nobody leave no file, and
   * otherwise the file holds one header followed by every record in order.
   */
  lemma {:induction false} SaveAllToNewFile(sessions: seq<Session>)
    ensures AllEmpty(sessions) ==> SaveAll(None, sessions) == None
    ensures !AllEmpty(sessions) ==> SaveAll(None, sessions) == Some([Header] + AllRecords(sessions))
    decreases |sessions|
  {
    if AllEmpty(sessions) {
      EmptySessionsWriteNothing(None, sessions);
    } else {
      var before, s := sessions[..|sessions| - 1], sessions[|sessions| - 1];
      assert before + [s] == sessions;
      AllEmptySnoc(before, s);
      if AllEmpty(before) {
        EmptySessionsWriteNothing(None, before);
        FirstRecordingSession(before, s);
      } else {
        SaveAllToNewFile(before);
        ExistingFileStep(None, [Header], before, s);
      }
    }
  }

  /** The first session that records somebody creates the file with its header. */
  lemma FirstRecordingSession(before: seq<Session>, s: Session)
    requires SaveAll(None, before) == None && AllRecords(before) == []
    requires s.attendance != []
    ensures SaveAll(None, before + [s]) == Some([Header] + AllRecords(before + [s]))
  {
    SaveAllSnoc(None, before, s);
    AllRecordsSnoc(before, s);
    SaveAppends(None, s);
    assert [] + Records(s.attendance, s.date, s.time) == Records(s.attendance, s.date, s.time);
  }

  /** Two sessions that each recognized one person leave one header and two records. */
  lemma TwoSessionsOneHeader(a: string, b: string, date1: string, time1: string, date2: string, time2: string)
    ensures SaveAll(None, [Session([a], date1, time1), Session([b], date2, time2)]) ==
      Some([Header, Record(a, date1, time1), Record(b, date2, time2)])
  {
    var s1, s2 := Session([a], date1, time1), Session([b], date2, time2);
    var r1, r2 := Record(a, date1, time1), Record(b, date2, time2);
    assert !AllEmpty([s1, s2]) by { assert [s1, s2][1].attendance != []; }
    SaveAllToNewFile([s1, s2]);
    assert AllRecords([s1, s2]) == [r1, r2] by {
      OneNameRecords(a, date1, time1);
      OneNameRecords(b, date2, time2);
      AllRecordsSnoc([], s1);
      AllRecordsSnoc([s1], s2);
      assert [] + [s1] == [s1] && [s1] + [s2] == [s1, s2];
    }
    assert [Header] + [r1, r2] == [Header, r1, r2];
  }

  /** Unfolds record collection by its last session. */
  lemma AllRecordsSnoc(before: seq<Session>, s: Session)
    ensures AllRecords(before + [s]) == AllRecords(before) + Records(s.attendance, s.date, s.time)
  {
    var sessions := before + [s];
    assert sessions[..|sessions| - 1] == before;
  }

  /** A session that recognized one person emits exactly one record. */
  lemma OneNameRecords(name: string, date: string, time: string)
    ensures Records([name], date, time) == [Record(name, date, time)]
  {
    var r := Records([name], date, time);
    assert |r| == 1 && r[0].Record?;
  }
}
