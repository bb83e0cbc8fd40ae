/**
 * The reference-set builder (p1.py:19-30). Face detection on an image file
 * is an input: `detect(filename)` is the list of encodings the recognizer
 * would return for that file, in detector order.
 */
module Loader {
  import opened Filenames

  /** An entry reaches the known set when it names an image with at least one face. */
  predicate Keep<E>(filename: string, detect: string -> seq<E>) {
    IsImageFile(filename) && |detect(filename)| > 0
  }

  /** The entries that reach the known set, in directory-listing order. */
  function Kept<E>(entries: seq<string>, detect: string -> seq<E>): (r: seq<string>)
    ensures |r| <= |entries|
    ensures forall f :: f in r <==> f in entries && Keep(f, detect)
    ensures forall i :: 0 <= i < |r| ==> Keep(r[i], detect)
    decreases |entries|
  {
    if entries == [] then []
    else
      var last := entries[|entries| - 1];
      assert entries == entries[..|entries| - 1] + [last];
      var before := Kept(entries[..|entries| - 1], detect);
      if Keep(last, detect) then before + [last] else before
  }

  /**
   * The loader loop: walks the listing once, appending the first encoding and
   * the label of every kept file to two parallel lists.
   */
  method LoadKnownFaces<E>(entries: seq<string>, detect: string -> seq<E>)
    returns (encodings: seq<E>, names: seq<string>)
    ensures |encodings| == |names| == |Kept(entries, detect)|
    ensures forall i :: 0 <= i < |names| ==>
      names[i] == Label(Kept(entries, detect)[i]) &&
      encodings[i] == detect(Kept(entries, detect)[i])[0]
  {
    encodings, names := [], [];
    for i := 0 to |entries|
      invariant |encodings| == |names| == |Kept(entries[..i], detect)|
      invariant forall k :: 0 <= k < |names| ==>
        names[k] == Label(Kept(entries[..i], detect)[k]) &&
        encodings[k] == detect(Kept(entries[..i], detect)[k])[0]
    {
      assert entries[..i + 1][..i] == entries[..i];
      var filename := entries[i];
      if IsImageFile(filename) {
        var encoding := detect(filename);
        if |encoding| > 0 {
          encodings := encodings + [encoding[0]];
          names := names + [Label(filename)];
        }
      }
    }
    assert entries[..|entries|] == entries;
  }

  /** Appending one entry to the listing appends it to the set exactly when it is kept. */
  lemma KeptSnoc<E>(s: seq<string>, f: string, detect: string -> seq<E>)
    ensures Kept(s + [f], detect) == Kept(s, detect) + (if Keep(f, detect) then [f] else [])
  {
    var sf := s + [f];
    assert sf[..|sf| - 1] == s && sf[|sf| - 1] == f;
  }

  /** Building the set over two listings back to back is building it over each in turn. */
  lemma {:induction false} KeptConcat<E>(a: seq<string>, b: seq<string>, detect: string -> seq<E>)
    ensures Kept(a + b, detect) == Kept(a, detect) + Kept(b, detect)
    decreases |b|
  {
    if b == [] {
      assert a + b == a;
    } else {
      var b', last := b[..|b| - 1], b[|b| - 1];
      assert b == b' + [last];
      assert a + b == (a + b') + [last];
      KeptConcat(a, b', detect);
      KeptSnoc(a + b', last, detect);
      KeptSnoc(b', last, detect);
    }
  }

  /**
   * An entry that is not an image, or in which no face is found, leaves the
   * known set exactly as the rest of the listing makes it.
   */
  lemma SkippedEntryAddsNothing<E>(a: seq<string>, f: string, b: seq<string>, detect: string -> seq<E>)
    requires !Keep(f, detect)
    ensures Kept(a + [f] + b, detect) == Kept(a + b, detect)
  {
    KeptConcat(a + [f], b, detect);
    KeptConcat(a, [f], detect);
    KeptConcat(a, b, detect);
    assert [f][..0] == [];
  }

  /** A kept entry adds exactly itself, at its place in the listing. */
  lemma KeptEntryAddsItself<E>(a: seq<string>, f: string, b: seq<string>, detect: string -> seq<E>)
    requires Keep(f, detect)
    ensures Kept(a + [f] + b, detect) == Kept(a, detect) + [f] + Kept(b, detect)
  {
    KeptConcat(a + [f], b, detect);
    KeptConcat(a, [f], detect);
    assert [f][..0] == [];
  }
}
