/**
 * First-match-wins selection (p1.py:56-60). The comparison against the known
 * encodings is an input: `matches[i]` says whether the detected face matched
 * known face `i`, one entry per known face.
 */
module Matching {
  import opened Wrappers

  /** The label of a face that matched no known face. */
  const UNKNOWN: string := "Unknown"

  /** `matches.index(True)` when `True in matches`. */
  function FirstTrue(matches: seq<bool>): (r: Option<nat>)
    ensures r.None? <==> true !in matches
    ensures r.Some? ==> r.value < |matches| && matches[r.value]
    ensures r.Some? ==> forall j :: 0 <= j < r.value ==> !matches[j]
    decreases |matches|
  {
    if matches == [] then None
    else if matches[0] then Some(0)
    else
      match FirstTrue(matches[1..])
      case None => None
      case Some(i) => Some(i + 1)
  }

  /** The name drawn for a face: the known name at the first match, else "Unknown". */
  function SelectName(matches: seq<bool>, names: seq<string>): (name: string)
    requires |matches| == |names|
    ensures true !in matches ==> name == UNKNOWN
    ensures forall i :: 0 <= i < |matches| && matches[i] && (forall j :: 0 <= j < i ==> !matches[j]) ==>
      name == names[i]
    ensures true in matches ==> name in names
  {
    match FirstTrue(matches)
    case None => UNKNOWN
    case Some(i) =>
      assert forall i' :: 0 <= i' < |matches| && matches[i'] && (forall j :: 0 <= j < i' ==> !matches[j]) ==> i' == i;
      names[i]
  }

  /** First match, not best match: once a face matched known face `i`, the entries after `i` are never consulted. */
  lemma LaterEntriesIgnored(matches: seq<bool>, names: seq<string>, i: nat)
    requires |matches| == |names|
    requires i < |matches| && matches[i]
    ensures SelectName(matches, names) == SelectName(matches[..i + 1], names[..i + 1])
  {
    var k := FirstTrue(matches).value;
    assert k <= i;
    assert FirstTrue(matches[..i + 1]) == Some(k) by {
      var prefix := matches[..i + 1];
      assert prefix[k];
      assert forall j :: 0 <= j < k ==> !prefix[j];
    }
  }
}
