/**
 * The per-frame loop over detected faces (p1.py:54-73) and the capture loop
 * around it (p1.py:40-82). A detected face is given by its match vector
 * against the known encodings and its box on the quarter-size frame.
 */
module FrameLoop {
  import opened Wrappers
  import opened Boxes
  import opened Matching
  import opened Attendance

  datatype DetectedFace = DetectedFace(matches: seq<bool>, location: Box)

  /** What is drawn for one face: its name, its rectangle and where the name goes. */
  datatype Annotation = Annotation(name: string, rect: Box, anchor: Point)

  /** Each match vector has one entry per known face, as the comparison returns it. */
  predicate Comparable(faces: seq<DetectedFace>, known: seq<string>) {
    forall k :: 0 <= k < |faces| ==> |faces[k].matches| == |known|
  }

  /** What is drawn for a face: "Unknown" or a known name, over a rectangle four times the located size. */
  function Annotate(face: DetectedFace, known: seq<string>): (a: Annotation)
    requires |face.matches| == |known|
    ensures true !in face.matches ==> a.name == UNKNOWN
    ensures true in face.matches ==> a.name in known
    ensures a.rect.right - a.rect.left == SCALE * (face.location.right - face.location.left)
    ensures a.rect.bottom - a.rect.top == SCALE * (face.location.bottom - face.location.top)
  {
    ScaleBackSize(face.location);
    Annotation(SelectName(face.matches, known), ScaleBack(face.location), LabelAnchor(face.location))
  }

  /** The attendance list after one face: its first match is marked, a face without one changes nothing. */
  function AfterFace(attendance: seq<string>, known: seq<string>, face: DetectedFace): (r: seq<string>)
    requires |face.matches| == |known|
    ensures |attendance| <= |r| <= |attendance| + 1 && r[..|attendance|] == attendance
    ensures forall x :: x in r ==> x in attendance || x in known
    ensures true !in face.matches ==> r == attendance
  {
    match FirstTrue(face.matches)
    case None => attendance
    case Some(i) => MarkOnce(attendance, known[i])
  }

  /** The attendance list after a sequence of faces, taken in order. */
  function AfterFaces(attendance: seq<string>, known: seq<string>, faces: seq<DetectedFace>): (r: seq<string>)
    requires Comparable(faces, known)
    ensures forall x :: x in r ==> x in attendance || x in known
    decreases |faces|
  {
    if faces == [] then attendance
    else AfterFace(AfterFaces(attendance, known, faces[..|faces| - 1]), known, faces[|faces| - 1])
  }

  /** The name a face contributes to attendance, if it matched a known face. */
  predicate Recognizes(face: DetectedFace, known: seq<string>, name: string)
    requires |face.matches| == |known|
  {
    true in face.matches && SelectName(face.matches, known) == name
  }

  lemma AfterFaceIsMark(attendance: seq<string>, known: seq<string>, face: DetectedFace)
    requires |face.matches| == |known|
    ensures AfterFace(attendance, known, face) ==
      if true in face.matches then MarkOnce(attendance, SelectName(face.matches, known)) else attendance
  {
  }

  /** Processing faces never removes or moves an earlier entry. */
  lemma {:induction false} AfterFacesExtends(attendance: seq<string>, known: seq<string>, faces: seq<DetectedFace>)
    requires Comparable(faces, known)
    ensures var r := AfterFaces(attendance, known, faces);
      |attendance| <= |r| <= |attendance| + |faces| && r[..|attendance|] == attendance
    decreases |faces|
  {
    if faces != [] {
      var before := faces[..|faces| - 1];
      AfterFacesExtends(attendance, known, before);
      var mid := AfterFaces(attendance, known, before);
      var r := AfterFace(mid, known, faces[|faces| - 1]);
      assert r[..|mid|] == mid;
      assert r[..|attendance|] == mid[..|attendance|];
    }
  }

  lemma {:induction false} AfterFacesPreservesNoDuplicates(attendance: seq<string>, known: seq<string>, faces: seq<DetectedFace>)
    requires Comparable(faces, known)
    requires NoDuplicates(attendance)
    ensures NoDuplicates(AfterFaces(attendance, known, faces))
    decreases |faces|
  {
    if faces != [] {
      var before := faces[..|faces| - 1];
      AfterFacesPreservesNoDuplicates(attendance, known, before);
      var mid := AfterFaces(attendance, known, before);
      var face := faces[|faces| - 1];
      match FirstTrue(face.matches)
      case None =>
      case Some(i) => MarkOncePreservesNoDuplicates(mid, known[i]);
    }
  }

  /**
   * A name is on the list after the faces exactly when it was on it before or
   * some face recognized it as its first match.
   */
  lemma {:induction false} AfterFacesMembers(attendance: seq<string>, known: seq<string>, faces: seq<DetectedFace>, x: string)
    requires Comparable(faces, known)
    ensures x in AfterFaces(attendance, known, faces) <==>
      x in attendance || exists k :: 0 <= k < |faces| && Recognizes(faces[k], known, x)
    decreases |faces|
  {
    if faces != [] {
      var before := faces[..|faces| - 1];
      var face := faces[|faces| - 1];
      AfterFacesMembers(attendance, known, before, x);
      AfterFaceIsMark(AfterFaces(attendance, known, before), known, face);
      if exists k :: 0 <= k < |faces| && Recognizes(faces[k], known, x) {
        var k :| 0 <= k < |faces| && Recognizes(faces[k], known, x);
        if k < |before| {
          assert before[k] == faces[k];
        }
      }
      if exists k :: 0 <= k < |before| && Recognizes(before[k], known, x) {
        var k :| 0 <= k < |before| && Recognizes(before[k], known, x);
        assert faces[k] == before[k];
      }
    }
  }

  /** Only known names reach attendance; "Unknown" does so only if a reference image carries that label. */
  lemma OnlyKnownNamesRecorded(attendance: seq<string>, known: seq<string>, faces: seq<DetectedFace>)
    requires Comparable(faces, known)
    ensures forall x :: x in AfterFaces(attendance, known, faces) ==> x in attendance || x in known
    ensures UNKNOWN in AfterFaces(attendance, known, faces) ==> UNKNOWN in attendance || UNKNOWN in known
  {
    forall x | x in AfterFaces(attendance, known, faces) ensures x in attendance || x in known {
      AfterFacesMembers(attendance, known, faces, x);
    }
  }

  /** Faces that match no known face leave attendance untouched. */
  lemma {:induction false} UnmatchedFacesChangeNothing(attendance: seq<string>, known: seq<string>, faces: seq<DetectedFace>)
    requires Comparable(faces, known)
    requires forall k :: 0 <= k < |faces| ==> true !in faces[k].matches
    ensures AfterFaces(attendance, known, faces) == attendance
    decreases |faces|
  {
    if faces != [] {
      UnmatchedFacesChangeNothing(attendance, known, faces[..|faces| - 1]);
    }
  }

  /** When every recognized name is already on the list, nothing changes. */
  lemma {:induction false} AlreadyMarkedChangeNothing(attendance: seq<string>, known: seq<string>, faces: seq<DetectedFace>)
    requires Comparable(faces, known)
    requires forall k :: 0 <= k < |faces| && true in faces[k].matches ==> SelectName(faces[k].matches, known) in attendance
    ensures AfterFaces(attendance, known, faces) == attendance
    decreases |faces|
  {
    if faces != [] {
      var before := faces[..|faces| - 1];
      AlreadyMarkedChangeNothing(attendance, known, before);
      AfterFaceIsMark(attendance, known, faces[|faces| - 1]);
    }
  }

  /** Seeing the same faces again marks nobody new. */
  lemma RepeatedFacesChangeNothing(attendance: seq<string>, known: seq<string>, faces: seq<DetectedFace>)
    requires Comparable(faces, known)
    ensures var once := AfterFaces(attendance, known, faces);
      AfterFaces(once, known, faces) == once
  {
    var once := AfterFaces(attendance, known, faces);
    forall k | 0 <= k < |faces| && true in faces[k].matches
      ensures SelectName(faces[k].matches, known) in once
    {
      AfterFacesMembers(attendance, known, faces, SelectName(faces[k].matches, known));
    }
    AlreadyMarkedChangeNothing(once, known, faces);
  }

  /** Processing two batches of faces in turn is processing them as one. */
  lemma {:induction false} AfterFacesConcat(attendance: seq<string>, known: seq<string>, a: seq<DetectedFace>, b: seq<DetectedFace>)
    requires Comparable(a, known) && Comparable(b, known)
    ensures Comparable(a + b, known)
    ensures AfterFaces(attendance, known, a + b) == AfterFaces(AfterFaces(attendance, known, a), known, b)
    decreases |b|
  {
    assert forall k :: 0 <= k < |a + b| ==> (a + b)[k] == if k < |a| then a[k] else b[k - |a|];
    if b == [] {
      assert a + b == a;
    } else {
      var b' := b[..|b| - 1];
      AfterFacesConcat(attendance, known, a, b');
      assert (a + b)[..|a + b| - 1] == a + b';
    }
  }

  /** All faces of a sequence of frames, frame after frame. */
  function Flatten(frames: seq<seq<DetectedFace>>): seq<DetectedFace>
    decreases |frames|
  {
    if frames == [] then [] else Flatten(frames[..|frames| - 1]) + frames[|frames| - 1]
  }

  /**
   * The session's recorder: the known names loaded at start-up and the
   * attendance list built while frames are processed.
   */
  class Recorder {
    const known: seq<string>
    var attendance: seq<string>

    /** The list holds each name at most once, and only known names. */
    ghost predicate Valid()
      reads this
    {
      NoDuplicates(attendance) && forall x :: x in attendance ==> x in known
    }

    constructor (known: seq<string>)
      ensures this.known == known && attendance == [] && Valid()
    {
      this.known := known;
      attendance := [];
    }

    /** Records a recognized name unless it is already present; reports whether it was added. */
    method Mark(name: string) returns (added: bool)
      requires Valid() && name in known
      modifies this
      ensures Valid()
      ensures added <==> name !in old(attendance)
      ensures attendance == MarkOnce(old(attendance), name)
    {
      MarkOncePreservesNoDuplicates(attendance, name);
      added := name !in attendance;
      if added {
        attendance := attendance + [name];
      }
    }

    /** The loop body for one face: marks its first match, if any, and returns what is drawn. */
    method ProcessFace(face: DetectedFace) returns (drawn: Annotation)
      requires Valid() && |face.matches| == |known|
      modifies this
      ensures Valid()
      ensures attendance == AfterFace(old(attendance), known, face)
      ensures drawn == Annotate(face, known)
    {
      var name := UNKNOWN;
      var first := FirstTrue(face.matches);
      if first.Some? {
        name := known[first.value];
        var _ := Mark(name);
      }
      drawn := Annotation(name, ScaleBack(face.location), LabelAnchor(face.location));
    }

    /** One pass of the loop over a frame's faces: marks first matches and returns what is drawn. */
    method ProcessFrame(faces: seq<DetectedFace>) returns (drawn: seq<Annotation>)
      requires Valid() && Comparable(faces, known)
      modifies this
      ensures Valid()
      ensures attendance == AfterFaces(old(attendance), known, faces)
      ensures |drawn| == |faces|
      ensures forall k :: 0 <= k < |faces| ==> drawn[k] == Annotate(faces[k], known)
    {
      drawn := [];
      for i := 0 to |faces|
        invariant Valid()
        invariant attendance == AfterFaces(old(attendance), known, faces[..i])
        invariant |drawn| == i
        invariant forall k :: 0 <= k < i ==> drawn[k] == Annotate(faces[k], known)
      {
        assert faces[..i + 1][..i] == faces[..i];
        var a := ProcessFace(faces[i]);
        drawn := drawn + [a];
      }
      assert faces[..|faces|] == faces;
    }

    /** The capture loop, over the frames read before the quit key or a failed read. */
    method RunSession(frames: seq<seq<DetectedFace>>)
      requires Valid() && forall f :: 0 <= f < |frames| ==> Comparable(frames[f], known)
      modifies this
      ensures Valid()
      ensures Comparable(Flatten(frames), known)
      ensures attendance == AfterFaces(old(attendance), known, Flatten(frames))
    {
      for f := 0 to |frames|
        invariant Valid()
        invariant Comparable(Flatten(frames[..f]), known)
        invariant attendance == AfterFaces(old(attendance), known, Flatten(frames[..f]))
      {
        assert frames[..f + 1][..f] == frames[..f];
        AfterFacesConcat(old(attendance), known, Flatten(frames[..f]), frames[f]);
        var _ := ProcessFrame(frames[f]);
      }
      assert frames[..|frames|] == frames;
    }
  }
}
