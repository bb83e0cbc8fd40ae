# Face-recognition attendance: verified model of the bookkeeping

The program is a webcam attendance script. At start-up it loads reference
images from `known_faces/`; for each image with a face it stores the first
face encoding and a label made from the file name. It then reads webcam
frames. Each face found in a frame is compared with the known encodings. The
face gets the name of its first matching known face, or `"Unknown"`. A
matched name is appended to the attendance list the first time it is seen.
Each face's box is scaled back to full-frame coordinates and drawn with its
name. When the session ends, the attendance list is appended to
`attendance.csv`; a header is written only when the file is new.

This project models the bookkeeping around those library calls. Face
detection and face comparison are inputs: `detect(filename)` gives the
encodings found in a file, and a detected face carries its match vector,
one boolean per known face.

- `filenames.dfy` (`Filenames`): the case-sensitive extension filter, and
  POSIX `os.path.splitext`, which gives the label. Leading dots are not an
  extension, so `".jpg"` keeps `".jpg"` as its label.
- `loader.dfy` (`Loader`): the loader loop. It builds the two parallel
  lists in directory order. It is specified by `Kept`, the entries that
  reach the known set.
- `matching.dfy` (`Matching`): `matches.index(True)` and the first-match-wins
  choice of a name.
- `boxes.dfy` (`Boxes`): scaling a box back by 4, and where the name label
  goes.
- `attendance.dfy` (`Attendance`): append-if-absent as a function on lists.
- `frame_loop.dfy` (`FrameLoop`): the per-face loop and the capture loop.
  The `Recorder` class holds the attendance list, and its methods update it
  in place. The fold `AfterFaces` specifies those methods, and the lemmas
  are proved about it.
- `attendance_csv.dfy` (`AttendanceCsv`): what a session writes to the CSV
  file, and what the file holds after several sessions.
- `wrappers.dfy` (`Wrappers`): `Option`.

Attendance is guarded by "some known face matched", not by the name being
different from `"Unknown"`. So a reference image named `Unknown.jpg` can put
`"Unknown"` on the attendance list. `FrameLoop.AfterFacesMembers`, taken with
the name `"Unknown"`, states exactly when this happens: it was already listed,
or some face's first match is a reference image labelled `"Unknown"`.
`FrameLoop.OnlyKnownNamesRecorded` gives the necessary condition: `"Unknown"`
must already be listed or be one of the known labels.

## Model

| member | source | states |
|---|---|---|
| `Filenames.IsImageFile` | p1.py:20 | a name passes the filter exactly when it ends in one of the three accepted extensions: any stem followed by `.jpg`, `.jpeg` or `.png` passes, and every name that passes has one of them as a suffix |
| `Filenames.UpperCaseExtensionIsNotImage` | p1.py:20 | the test is case-sensitive: `.JPG` and `.PNG` names are rejected |
| `Filenames.LastIndexOf` | p1.py:27 | the last occurrence of a character, or -1, as `splitext` searches for the last separator and dot |
| `Filenames.SplitExt` | p1.py:27 | root and extension concatenate back to the name; the extension is empty, or is one dot followed by no dot or separator, preceded by a non-dot in the base name; conversely, when nothing is split off, every dot in the base name has only dots before it |
| `Filenames.OnlyDotsBeforeDot` | p1.py:27 | when `splitext` declines to split, no dot after the last separator has a non-dot before it in the base name |
| `Filenames.Label` | p1.py:27 | the label is a prefix of the file name: the whole name, or the name less a final part made of one dot followed by no dot and no separator |
| `Filenames.LabelOfImageName` | p1.py:27 | the label of `stem + ext` is `stem`, or the whole name when `stem` is made of dots only |
| `Filenames.BareExtensionLabel` | p1.py:27 | `".jpg"` is labelled `".jpg"` |
| `Filenames.DottedStemLabel` | p1.py:27 | only the final extension is removed: `bob.smith.jpeg` is labelled `bob.smith` |
| `Loader.Kept` | p1.py:19-30 | an entry is kept exactly when it is an image with at least one detected face; never more entries than listed |
| `Loader.LoadKnownFaces` | p1.py:19-30 | the encodings and names lists have equal length; entry `i` is the label and the first encoding of the `i`-th kept file |
| `Loader.KeptConcat` | p1.py:19 | listing order is kept: the set built from `a + b` is the set of `a` followed by the set of `b` |
| `Loader.SkippedEntryAddsNothing` | p1.py:20-30 | a non-image or a faceless file, wherever it is listed, leaves both lists as they would be without it |
| `Loader.KeptEntryAddsItself` | p1.py:25-27 | a kept file adds exactly one entry, at its place in the listing |
| `Matching.FirstTrue` | p1.py:58-59 | `None` exactly when no entry is `True`; otherwise a `True` index before which every entry is `False` |
| `Matching.SelectName` | p1.py:56-60 | `"Unknown"` when nothing matches; otherwise the known name at the smallest matching index, which is a known name |
| `Matching.LaterEntriesIgnored` | p1.py:58-60 | first match wins: entries after a matching index never change the name |
| `Boxes.ScaleBack` | p1.py:70 | scaling by 4 keeps top above bottom and left before right, in both directions |
| `Boxes.AnchorOnFrame` | p1.py:70-72 | the label's anchor, the bottom-left corner of the text, is at or below the frame's top edge exactly when the located box's top is at least 3; for a face nearer the top edge it lies above the frame |
| `Boxes.AnchorAboveRectangle` | p1.py:71-72 | the name starts on the drawn rectangle's left edge, strictly above its top |
| `Boxes.ScaleBackWithinFrame` | p1.py:70-71 | a box inside a `w` by `h` small frame lies inside the `4w` by `4h` frame, with its corners in the same order |
| `Boxes.ScaleBackSize` | p1.py:70-71 | width and height are multiplied by exactly 4 |
| `Attendance.MarkOnce` | p1.py:63-64 | the name is present afterwards; the old list is a prefix; the length grows by at most one; nothing else is added; a present name changes nothing |
| `Attendance.MarkOncePreservesNoDuplicates` | p1.py:63-64 | append-if-absent never creates a duplicate |
| `Attendance.MarkOnceIdempotent` | p1.py:62-64 | marking a name twice is the same as marking it once |
| `Attendance.MarkOnceGrowsIffNew` | p1.py:63-64 | the list grows exactly when the name was absent |
| `FrameLoop.Annotate` | p1.py:56-72 | a face with no match is labelled `"Unknown"`; a face with a match is labelled with a known name; its drawn rectangle is 4 times the located box in width and height |
| `FrameLoop.AfterFace` | p1.py:56-64 | one face keeps the old list as a prefix and adds at most one entry, which is a known name; a face that matches nobody changes nothing |
| `FrameLoop.AfterFaces` | p1.py:54-64 | after any faces, every entry was already listed or is a known name |
| `FrameLoop.AfterFaceIsMark` | p1.py:56-64 | one face marks its selected name when some entry matches, and changes nothing otherwise |
| `FrameLoop.AfterFacesExtends` | p1.py:54-64 | attendance never shrinks, earlier entries keep their positions, and it grows by at most one per face |
| `FrameLoop.AfterFacesPreservesNoDuplicates` | p1.py:54-64 | no duplicates before means no duplicates after |
| `FrameLoop.AfterFacesMembers` | p1.py:54-64 | a name is present after the faces exactly when it was present before or some face matched it first |
| `FrameLoop.OnlyKnownNamesRecorded` | p1.py:56-64 | every new entry is a known name; `"Unknown"` appears only if a known label is `"Unknown"` |
| `FrameLoop.UnmatchedFacesChangeNothing` | p1.py:56-58 | faces that match nobody leave attendance unchanged |
| `FrameLoop.AlreadyMarkedChangeNothing` | p1.py:62-64 | faces whose names are already on the list leave it unchanged |
| `FrameLoop.RepeatedFacesChangeNothing` | p1.py:62-64 | seeing the same faces again marks nobody new |
| `FrameLoop.AfterFacesConcat` | p1.py:40-64 | processing frames one after another is the same as processing all their faces in one run |
| `FrameLoop.Recorder.constructor` | p1.py:36 | the session starts with an empty attendance list over the loaded names |
| `FrameLoop.Recorder.Mark` | p1.py:63-64 | appends the name exactly when it is absent, reports whether it did, and keeps the list free of duplicates and unknown names |
| `FrameLoop.Recorder.ProcessFace` | p1.py:55-73 | one face: its first match, if any, is marked, and it is drawn with its selected name, scaled box and label anchor |
| `FrameLoop.Recorder.ProcessFrame` | p1.py:54-73 | the new list is the fold of the frame's faces over the old one; each face is drawn with its selected name, scaled box and label anchor |
| `FrameLoop.Recorder.RunSession` | p1.py:40-82 | after the frames, the list is the fold of all their faces in order, and it stays free of duplicates and unknown names |
| `AttendanceCsv.Records` | p1.py:92-94 | one record per name, in list order, each carrying the session's date and time |
| `AttendanceCsv.Apply` | p1.py:95 | no emission leaves the file as it was; an emission yields a file that keeps the old lines as a prefix and grows by the header, if any, plus the records |
| `AttendanceCsv.Emit` | p1.py:91-95 | nothing is written exactly when attendance is empty; otherwise there is one record per name in list order, each with the session's date and time, and a header only if the file did not exist |
| `AttendanceCsv.SaveAppends` | p1.py:91-95 | one save appends its records to the existing lines, or creates the file with a header first |
| `AttendanceCsv.SaveOntoExisting` | p1.py:91-95 | saving onto an existing file appends exactly the session's records, none when it recorded nobody, and never a header |
| `AttendanceCsv.ExistingFileStep` | p1.py:95 | once the file exists, a further session only appends its records |
| `AttendanceCsv.SaveAllToExistingFile` | p1.py:95 | sessions saved to an existing file only append records, never a header |
| `AttendanceCsv.SaveAllToNewFile` | p1.py:91-95 | starting without a file: no file if every session was empty; otherwise one header followed by all records in order |
| `AttendanceCsv.FirstRecordingSession` | p1.py:91-95 | the first session that records somebody creates the file, header first |
| `AttendanceCsv.EmptySessionsWriteNothing` | p1.py:91-98 | empty sessions emit no records and leave the file as it was |
| `AttendanceCsv.TwoSessionsOneHeader` | p1.py:95 | two sessions, each with one name, leave one header and two records |
| `AttendanceCsv.AllRecordsSnoc` | p1.py:92-95 | the records of several sessions are those of the earlier sessions followed by the last session's |
| `AttendanceCsv.OneNameRecords` | p1.py:92-94 | a session with one name emits exactly one record |

## Left out

- Face detection and encoding, image loading, and `compare_faces` with its
  distance threshold (p1.py:22-23, p1.py:51-55). These are foreign library
  calls. They appear as `detect` and as the match vector of each detected face.
  Pairing encodings with locations through `zip` appears as the
  `DetectedFace` record.
- Video capture, resizing, colour conversion, drawing, the window and
  releasing the camera (p1.py:35, p1.py:41-48, p1.py:71-86). This is device
  and display I/O. `RunSession` takes the frames read before the loop
  stopped, so the stopping rule (a failed read, or `q`/ESC at p1.py:80) is
  not modelled.
- The check that `known_faces` exists and the exit when it is missing
  (p1.py:15-17), and the directory listing itself. These are filesystem I/O.
  The listing is the `entries` input.
- An exception from `load_image_file` on an unreadable image. Library
  behaviour is not part of this model.
- The wall clock (p1.py:65-66, p1.py:93-94). Date and time are inputs to
  `Emit`.
- The CSV text itself (quoting, separators, the `Name,Date,Time` header
  spelling): lines are modelled as `Header` or `Record(name, date, time)`. File existence
  is modelled as whether the file's content is present.
- Console messages (p1.py:16, p1.py:28-30, p1.py:43, p1.py:67, p1.py:81,
  p1.py:96-98). They are output with no logic.
- `Filenames.SplitExt`: follows POSIX `posixpath.splitext`. The Windows
  variant, which also splits on `\`, is not modelled.
