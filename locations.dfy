/**
 * The data-centre table: one `Location` per IATA code, and the map that
 * `GetLocationMap` builds from the decoded list (speedtest/utils.go:155-158).
 */
module Locations {

  /**
   * One entry of the location list. Latitude and longitude are floating-point
   * numbers in the source; they are only copied, so `real` stands for them.
   */
  datatype Location = Location(iata: string, lat: real, lon: real, cca2: string, region: string, city: string)

  /** The position of the last entry with code `code`, or -1 when no entry has it. */
  function LastIndex(locs: seq<Location>, code: string): (i: int)
    ensures -1 <= i < |locs|
    ensures i >= 0 ==> locs[i].iata == code
    ensures forall j :: i < j < |locs| ==> locs[j].iata != code
  {
    if locs == [] then -1
    else if locs[|locs| - 1].iata == code then |locs| - 1
    else LastIndex(locs[..|locs| - 1], code)
  }

  /** A code has an entry exactly when some entry of the list carries it. */
  lemma {:induction false} LastIndexFound(locs: seq<Location>, code: string)
    ensures LastIndex(locs, code) >= 0 <==> exists j :: 0 <= j < |locs| && locs[j].iata == code
  {
    if locs != [] && locs[|locs| - 1].iata != code {
      var init := locs[..|locs| - 1];
      LastIndexFound(init, code);
      if exists j :: 0 <= j < |locs| && locs[j].iata == code {
        var j :| 0 <= j < |locs| && locs[j].iata == code;
        assert init[j].iata == code;
      }
    }
  }

  /** Appending an entry makes it the last one for its code and leaves other codes alone. */
  lemma LastIndexAppend(locs: seq<Location>, x: Location, code: string)
    ensures LastIndex(locs + [x], code) == if x.iata == code then |locs| else LastIndex(locs, code)
  {
    assert (locs + [x])[..|locs|] == locs;
  }

  /**
   * `locationMap[loc.Iata] = loc` for each entry in list order: the keys are
   * the codes present in the list, and a code listed more than once maps to
   * its last entry, later entries overwriting earlier ones.
   */
  method BuildLocationMap(locs: seq<Location>) returns (m: map<string, Location>)
    ensures forall code :: code in m <==> LastIndex(locs, code) >= 0
    ensures forall code :: code in m ==> m[code] == locs[LastIndex(locs, code)]
  {
    m := map[];
    for n := 0 to |locs|
      invariant forall code :: code in m <==> LastIndex(locs[..n], code) >= 0
      invariant forall code :: code in m ==> m[code] == locs[..n][LastIndex(locs[..n], code)]
    {
      var loc := locs[n];
      assert locs[..n + 1] == locs[..n] + [loc];
      forall code
        ensures LastIndex(locs[..n + 1], code) == if loc.iata == code then n else LastIndex(locs[..n], code)
      {
        LastIndexAppend(locs[..n], loc, code);
      }
      m := m[loc.iata := loc];
    }
    assert locs[..|locs|] == locs;
  }
}
