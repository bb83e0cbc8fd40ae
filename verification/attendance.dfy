/**
 * The attendance list (p1.py:36, p1.py:63-64): names are appended the first
 * time they are seen and never removed.
 */
module Attendance {

  predicate NoDuplicates(s: seq<string>) {
    forall i, j :: 0 <= i < j < |s| ==> s[i] != s[j]
  }

  /** `if name not in attendance: attendance.append(name)`, as a value. */
  function MarkOnce(attendance: seq<string>, name: string): (r: seq<string>)
    ensures name in r
    ensures |attendance| <= |r| <= |attendance| + 1
    ensures r[..|attendance|] == attendance
    ensures forall x :: x in r ==> x in attendance || x == name
    ensures name in attendance ==> r == attendance
  {
    if name in attendance then attendance else attendance + [name]
  }

  /** Marking never introduces a duplicate. */
  lemma MarkOncePreservesNoDuplicates(attendance: seq<string>, name: string)
    requires NoDuplicates(attendance)
    ensures NoDuplicates(MarkOnce(attendance, name))
  {
    var r := MarkOnce(attendance, name);
    forall i, j | 0 <= i < j < |r| ensures r[i] != r[j] {
      if j == |attendance| {
        assert r[i] == attendance[i];
      }
    }
  }

  /** Marking the same name twice is marking it once. */
  lemma MarkOnceIdempotent(attendance: seq<string>, name: string)
    ensures MarkOnce(MarkOnce(attendance, name), name) == MarkOnce(attendance, name)
  {
  }

  /** The list grows exactly when the name was not there yet. */
  lemma MarkOnceGrowsIffNew(attendance: seq<string>, name: string)
    ensures |MarkOnce(attendance, name)| == |attendance| + 1 <==> name !in attendance
  {
  }
}
