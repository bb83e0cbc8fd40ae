/**
 * File-name handling of the reference-image loader (p1.py:19-27): which
 * directory entries are treated as images, and the label a kept image gets.
 *
 * The label is `os.path.splitext(filename)[0]`; `SplitExt` below follows the
 * POSIX flavour of Python's `splitext`, including its rule that the leading
 * dots of a base name never start an extension.
 */
module Filenames {

  /** The accepted extensions, compared case-sensitively and in this order. */
  const IMAGE_EXTENSIONS: seq<string> := [".jpg", ".jpeg", ".png"]

  predicate EndsWith(s: string, suffix: string) {
    |suffix| <= |s| && s[|s| - |suffix|..] == suffix
  }

  /** `filename.endswith(('.jpg', '.jpeg', '.png'))`: true exactly when one of the accepted extensions ends the name. */
  predicate IsImageFile(filename: string)
    ensures IsImageFile(filename) <==> exists ext :: ext in IMAGE_EXTENSIONS && EndsWith(filename, ext)
  {
    assert IMAGE_EXTENSIONS[0] == ".jpg" && IMAGE_EXTENSIONS[1] == ".jpeg" && IMAGE_EXTENSIONS[2] == ".png";
    EndsWith(filename, ".jpg") || EndsWith(filename, ".jpeg") || EndsWith(filename, ".png")
  }

  /** Index of the last occurrence of `c` in `s`, or -1 (Python's `str.rfind`). */
  function LastIndexOf(s: string, c: char): (r: int)
    ensures -1 <= r < |s|
    ensures r >= 0 ==> s[r] == c
    ensures forall j :: r < j < |s| ==> s[j] != c
    decreases |s|
  {
    if s == [] then -1
    else if s[|s| - 1] == c then |s| - 1
    else LastIndexOf(s[..|s| - 1], c)
  }

  /** True when `s[lo..hi]` holds a character other than a dot. */
  predicate HasNonDot(s: string, lo: int, hi: int)
    requires 0 <= lo && hi <= |s|
  {
    exists k :: lo <= k < hi && s[k] != '.'
  }

  /**
   * `os.path.splitext` on POSIX: the extension runs from the last dot that
   * comes after the last '/', provided some character between that '/' and
   * the dot is not a dot; otherwise there is no extension.
   */
  function SplitExt(p: string): (r: (string, string))
    ensures r.0 + r.1 == p
    ensures r.1 == [] || (r.1[0] == '.' && '.' !in r.1[1..] && '/' !in r.1)
    ensures r.1 != [] ==> HasNonDot(p, LastIndexOf(p, '/') + 1, |r.0|)
    ensures r.1 == [] ==> forall k :: LastIndexOf(p, '/') < k < |p| && p[k] == '.' ==>
      !HasNonDot(p, LastIndexOf(p, '/') + 1, k)
  {
    var sepIndex := LastIndexOf(p, '/');
    var dotIndex := LastIndexOf(p, '.');
    if dotIndex > sepIndex && HasNonDot(p, sepIndex + 1, dotIndex) then
      assert p[..dotIndex] + p[dotIndex..] == p;
      (p[..dotIndex], p[dotIndex..])
    else
      OnlyDotsBeforeDot(p, sepIndex, dotIndex);
      (p, [])
  }

  /**
   * When `splitext` declines to split, no dot after the last '/' has a
   * non-dot before it in the base name; `sep` and `dot` are where the last
   * '/' and the last '.' were found.
   */
  lemma OnlyDotsBeforeDot(p: string, sep: int, dot: int)
    requires -1 <= sep < |p| && -1 <= dot < |p|
    requires forall j :: dot < j < |p| ==> p[j] != '.'
    requires !(dot > sep && HasNonDot(p, sep + 1, dot))
    ensures forall k :: sep < k < |p| && p[k] == '.' ==> !HasNonDot(p, sep + 1, k)
  {
    forall k | sep < k < |p| && p[k] == '.' ensures !HasNonDot(p, sep + 1, k) {
      assert k <= dot;
      forall j | sep + 1 <= j < k ensures p[j] == '.' {
        assert !HasNonDot(p, sep + 1, dot);
      }
    }
  }

  /**
   * The name a kept image is known by: its file name without the final
   * extension, where the part removed is nothing or a dot followed by
   * neither a dot nor a '/'.
   */
  function Label(filename: string): (r: string)
    ensures |r| <= |filename| && r == filename[..|r|]
    ensures r == filename || (filename[|r|] == '.' && '.' !in filename[|r| + 1..] && '/' !in filename[|r|..])
  {
    var parts := SplitExt(filename);
    assert filename[..|parts.0|] == parts.0 && filename[|parts.0|..] == parts.1;
    parts.0
  }

  /** The extension test is case-sensitive: upper-case extensions are not images. */
  lemma UpperCaseExtensionIsNotImage(stem: string)
    ensures !IsImageFile(stem + ".JPG")
    ensures !IsImageFile(stem + ".PNG")
  {
    var s := stem + ".JPG";
    assert s[|s| - 1] == 'G';
    var t := stem + ".PNG";
    assert t[|t| - 1] == 'G';
  }

  /** The last dot of `stem + ext` is the one that opens `ext`. */
  lemma LastDotOfImageName(stem: string, ext: string)
    requires ext in IMAGE_EXTENSIONS
    ensures LastIndexOf(stem + ext, '.') == |stem|
  {
    var p := stem + ext;
    var r := LastIndexOf(p, '.');
    assert p[|stem|] == ext[0] == '.';
    forall j | |stem| < j < |p| ensures p[j] != '.' {
      assert p[j] == ext[j - |stem|];
    }
  }

  /**
   * The label of a listed image `stem + ext` is `stem`, except when `stem`
   * is made of dots only (".jpg", "..png"): then `splitext` sees no
   * extension and the whole file name is the label.
   */
  lemma LabelOfImageName(stem: string, ext: string)
    requires ext in IMAGE_EXTENSIONS
    requires '/' !in stem
    ensures Label(stem + ext) == if HasNonDot(stem, 0, |stem|) then stem else stem + ext
  {
    var p := stem + ext;
    LastDotOfImageName(stem, ext);
    assert '/' !in p by {
      forall j | 0 <= j < |p| ensures p[j] != '/' {
        if j < |stem| {
          assert p[j] == stem[j];
        } else {
          assert p[j] == ext[j - |stem|];
        }
      }
    }
    assert LastIndexOf(p, '/') == -1;
    assert p[..|stem|] == stem;
    if HasNonDot(stem, 0, |stem|) {
      var k :| 0 <= k < |stem| && stem[k] != '.';
      assert p[k] == stem[k];
      assert HasNonDot(p, 0, |stem|);
    } else {
      assert !HasNonDot(p, 0, |stem|) by {
        forall k | 0 <= k < |stem| ensures p[k] == '.' {
          assert p[k] == stem[k];
        }
      }
    }
  }

  /** A file named only by its extension keeps the extension as its label. */
  lemma BareExtensionLabel()
    ensures Label(".jpg") == ".jpg"
  {
    LabelOfImageName("", ".jpg");
    assert "" + ".jpg" == ".jpg";
  }

  /** Only the final extension is removed. */
  lemma DottedStemLabel()
    ensures Label("bob.smith.jpeg") == "bob.smith"
  {
    var stem := "bob.smith";
    LabelOfImageName(stem, ".jpeg");
    assert stem[0] != '.';
    assert stem + ".jpeg" == "bob.smith.jpeg";
  }
}
