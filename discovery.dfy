/**
 * The selection rule of `find_co2_sensor`: over the hidraw nodes listed by
 * `ls /dev/hidraw*`, the first whose `udevadm info` query succeeds and whose
 * output names the sensor's USB vendor. The shell calls themselves are
 * replaced by their results, given as inputs.
 */
module Discovery {
  import opened Wrappers

  const VENDOR: string := "Holtek Semiconductor, Inc."

  /** The result of `udevadm info --query=all --name=<path>`. */
  datatype Query = QueryFailed | QueryOk(stdout: string)

  /** One listed device node with the result of querying it. */
  datatype Candidate = Candidate(path: string, query: Query)

  /** The result of listing the nodes: failure, or the paths in listing order. */
  datatype Listing = ListingFailed | Listed(candidates: seq<Candidate>)

  ghost predicate OccursAt(text: string, pattern: string, i: int)
  {
    0 <= i && i + |pattern| <= |text| && text[i..i + |pattern|] == pattern
  }

  /** Python's `pattern in text` on strings. */
  function Contains(text: string, pattern: string): (b: bool)
    ensures b <==> exists i :: OccursAt(text, pattern, i)
    decreases |text|
  {
    if |text| < |pattern| then false
    else if text[..|pattern|] == pattern then assert OccursAt(text, pattern, 0); true
    else
      var b := Contains(text[1..], pattern);
      assert b ==> exists i :: OccursAt(text, pattern, i) by {
        if b {
          var i :| OccursAt(text[1..], pattern, i);
          assert text[1..][i..i + |pattern|] == text[i + 1..i + 1 + |pattern|];
          assert OccursAt(text, pattern, i + 1);
        }
      }
      assert (exists i :: OccursAt(text, pattern, i)) ==> b by {
        if exists i :: OccursAt(text, pattern, i) {
          var i :| OccursAt(text, pattern, i);
          assert i != 0;
          assert text[1..][i - 1..i - 1 + |pattern|] == text[i..i + |pattern|];
          assert OccursAt(text[1..], pattern, i - 1);
        }
      }
      b
  }

  /** The query succeeded and its output mentions the vendor. */
  predicate IsSensor(c: Candidate)
  {
    c.query.QueryOk? && Contains(c.query.stdout, VENDOR)
  }

  /** The loop over the listed nodes: first match wins, failed queries are skipped. */
  function FirstSensor(candidates: seq<Candidate>): (r: Option<string>)
    ensures r.None? <==> forall i :: 0 <= i < |candidates| ==> !IsSensor(candidates[i])
    ensures r.Some? ==> exists i :: (0 <= i < |candidates| && candidates[i].path == r.value
      && IsSensor(candidates[i]) && forall j :: 0 <= j < i ==> !IsSensor(candidates[j]))
    decreases |candidates|
  {
    if candidates == [] then None
    else if IsSensor(candidates[0]) then Some(candidates[0].path)
    else
      var r := FirstSensor(candidates[1..]);
      assert forall i :: 1 <= i < |candidates| ==> candidates[i] == candidates[1..][i - 1];
      if r.Some? then
        var i :| 0 <= i < |candidates[1..]| && candidates[1..][i].path == r.value
          && IsSensor(candidates[1..][i]) && forall j :: 0 <= j < i ==> !IsSensor(candidates[1..][j]);
        assert candidates[i + 1].path == r.value && IsSensor(candidates[i + 1]);
        r
      else r
  }

  /** `find_co2_sensor`: `None` when the listing fails or no node matches. */
  function FindCo2Sensor(listing: Listing): (r: Option<string>)
    ensures listing.ListingFailed? ==> r.None?
    ensures listing.Listed? ==> r == FirstSensor(listing.candidates)
  {
    match listing
    case ListingFailed => None
    case Listed(candidates) => FirstSensor(candidates)
  }

  /** A matching node is chosen whenever no node listed before it matches, whatever follows it. */
  lemma {:induction false} PrefersEarlier(before: seq<Candidate>, c: Candidate, after: seq<Candidate>)
    requires IsSensor(c)
    requires forall i :: 0 <= i < |before| ==> !IsSensor(before[i])
    ensures FindCo2Sensor(Listed(before + [c] + after)) == Some(c.path)
    decreases |before|
  {
    var cs := before + [c] + after;
    if before == [] {
      assert cs[0] == c;
    } else {
      assert cs[0] == before[0];
      assert cs[1..] == before[1..] + [c] + after;
      PrefersEarlier(before[1..], c, after);
    }
  }
}
