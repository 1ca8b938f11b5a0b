/** Sport detection: the sport is decided once, from the set of position codes in
    the uploaded file, by subset tests in a fixed order (NFL first, then NBA). */
module SportDetect {
  import opened Picks

  datatype Sport = NFL | NBA

  /** `NFL_POSITIONS`, in the order the dashboard lists them. */
  const NflPositions: seq<string> := ["QB", "RB", "WR", "TE"]

  /** `NBA_POSITIONS`, in the order the dashboard lists them. */
  const NbaPositions: seq<string> := ["PG", "SG", "SF", "PF", "C"]

  /** Some code in `positions` is not one of `allowed`. */
  predicate HasForeign(positions: set<string>, allowed: seq<string>)
  {
    exists p :: p in positions && p !in allowed
  }

  /** The sport of a file whose distinct position codes are `positions`. */
  function Detect(positions: set<string>): (r: Result<Sport>)
    ensures r == Ok(NFL) <==> forall p :: p in positions ==> p in NflPositions
    ensures r == Ok(NBA) <==>
      HasForeign(positions, NflPositions) && forall p :: p in positions ==> p in NbaPositions
    ensures r.Err? <==> HasForeign(positions, NflPositions) && HasForeign(positions, NbaPositions)
    ensures r.Err? ==> r.error == InvalidPositionData
  {
    if positions <= set p | p in NflPositions then Ok(NFL)
    else if positions <= set p | p in NbaPositions then Ok(NBA)
    else Err(InvalidPositionData)
  }

  /** The sport of a whole table of picks. */
  function DetectRows(rows: seq<Pick>): (r: Result<Sport>)
    ensures r.Err? <==>
      (exists i :: 0 <= i < |rows| && rows[i].position !in NflPositions) &&
      (exists j :: 0 <= j < |rows| && rows[j].position !in NbaPositions)
    ensures r == Ok(NFL) <==> forall i :: 0 <= i < |rows| ==> rows[i].position in NflPositions
  {
    var positions := PositionSet(rows);
    assert forall i :: 0 <= i < |rows| ==> rows[i].position in positions;
    Detect(positions)
  }

  /** Because NFL is checked first, a file with no picks at all is read as NFL. */
  lemma EmptyFileIsNfl()
    ensures Detect({}) == Ok(NFL)
  {
  }

  /** The two position lists share no code, so at most one subset test can succeed
      on a non-empty file: the test order only decides the empty file. */
  lemma DetectionOrderOnlyMattersWhenEmpty(positions: set<string>)
    requires positions != {}
    ensures !((forall p :: p in positions ==> p in NflPositions) &&
              (forall p :: p in positions ==> p in NbaPositions))
  {
    var p :| p in positions;
    assert p in NflPositions ==> p !in NbaPositions;
  }

  /** A file mixing one NFL-only and one NBA-only code stops with the error. */
  lemma MixedFileIsRejected(positions: set<string>, a: string, b: string)
    requires a in positions && a in NflPositions
    requires b in positions && b in NbaPositions
    ensures Detect(positions) == Err(InvalidPositionData)
  {
    assert a !in NbaPositions;
    assert b !in NflPositions;
  }
}
