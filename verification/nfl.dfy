/** The NFL classifiers of one draft entry: the build label, read from the
    per-position pick counts, and the quarterback stack label, read from the rows. */
module Nfl {
  import opened Seqs
  import opened Picks

  datatype Build = InvalidBuild | TwoRbBuild | ThreeWrBuild | TwoTeBuild | OtherBuild

  /** The build of an entry whose position counts are `counts` (a position that
      does not occur has count 0). The rules are checked in order; the
      postconditions state that they never overlap, so each label has a
      characterisation that does not depend on the order. */
  function ClassifyBuild(counts: multiset<string>): (r: Build)
    ensures r == InvalidBuild <==> counts["QB"] != 1
    ensures r == TwoRbBuild <==>
      counts["QB"] == 1 && counts["RB"] == 2 && counts["WR"] == 2 && counts["TE"] == 1
    ensures r == ThreeWrBuild <==>
      counts["QB"] == 1 && counts["RB"] == 1 && counts["WR"] == 3 && counts["TE"] == 1
    ensures r == TwoTeBuild <==> counts["QB"] == 1 && counts["TE"] == 2
    ensures r == OtherBuild <==>
      counts["QB"] == 1 && counts["TE"] != 2 &&
      !(counts["RB"] == 2 && counts["WR"] == 2 && counts["TE"] == 1) &&
      !(counts["RB"] == 1 && counts["WR"] == 3 && counts["TE"] == 1)
  {
    if counts["QB"] != 1 then InvalidBuild
    else if counts["RB"] == 2 && counts["WR"] == 2 && counts["TE"] == 1 then TwoRbBuild
    else if counts["RB"] == 1 && counts["WR"] == 3 && counts["TE"] == 1 then ThreeWrBuild
    else if counts["TE"] == 2 then TwoTeBuild
    else OtherBuild
  }

  /** Adding a pick at any position other than QB, RB, WR or TE never changes the build. */
  lemma BuildIgnoresOtherPositions(counts: multiset<string>, p: string)
    requires p != "QB" && p != "RB" && p != "WR" && p != "TE"
    ensures ClassifyBuild(counts + multiset{p}) == ClassifyBuild(counts)
  {
    var c := counts + multiset{p};
    assert c["QB"] == counts["QB"] && c["RB"] == counts["RB"];
    assert c["WR"] == counts["WR"] && c["TE"] == counts["TE"];
  }

  /** On a six-pick roster of NFL positions with one quarterback, a 2 TE build
      leaves exactly three running-back and receiver picks. */
  lemma TwoTeRosterShape(counts: multiset<string>)
    requires |counts| == 6
    requires forall p :: p in counts ==> p == "QB" || p == "RB" || p == "WR" || p == "TE"
    requires ClassifyBuild(counts) == TwoTeBuild
    ensures counts["RB"] + counts["WR"] == 3
  {
    RosterSize(counts);
  }

  /** The size of a multiset of NFL positions is the sum of the four counts. */
  lemma RosterSize(counts: multiset<string>)
    requires forall p :: p in counts ==> p == "QB" || p == "RB" || p == "WR" || p == "TE"
    ensures |counts| == counts["QB"] + counts["RB"] + counts["WR"] + counts["TE"]
  {
    var keys := ["QB", "RB", "WR", "TE"];
    SizeIsSumOfCounts(counts, keys);
    assert keys[1..] == ["RB", "WR", "TE"] && keys[1..][1..] == ["WR", "TE"];
    assert keys[1..][1..][1..] == ["TE"] && keys[1..][1..][1..][1..] == [];
    assert SumOfCounts(counts, ["TE"]) == counts["TE"];
    assert SumOfCounts(counts, ["WR", "TE"]) == counts["WR"] + counts["TE"];
  }

  // ---------------------------------------------------------------------------
  // Quarterback stacks.

  datatype Stack = InvalidStack | NakedQb | Skinny | Double | TriplePlus

  function StackText(s: Stack): string
  {
    match s
    case InvalidStack => "Invalid"
    case NakedQb => "Naked QB"
    case Skinny => "Skinny"
    case Double => "Double"
    case TriplePlus => "Triple+"
  }

  predicate IsQb(p: Pick)
  {
    p.position == "QB"
  }

  /** Row mask "a non-quarterback pick on team `team`". */
  function StacksWith(team: string): Pick -> bool
  {
    (p: Pick) => p.position != "QB" && p.team == team
  }

  /** The number of non-quarterback picks sharing the quarterback's team. */
  function StackPartners(rows: seq<Pick>, qbTeam: string): nat
  {
    Count(rows, StacksWith(qbTeam))
  }

  /** The label of `k` stacked partners: capped at three. */
  function StackOfSize(k: nat): (r: Stack)
    ensures r != InvalidStack
    ensures Rank(r) == if k < 3 then k else 3
  {
    if k == 0 then NakedQb
    else if k == 1 then Skinny
    else if k == 2 then Double
    else TriplePlus
  }

  /** The number of stacked partners a valid label stands for (at least, for Triple+). */
  function Rank(s: Stack): nat
  {
    match s
    case InvalidStack => 0
    case NakedQb => 0
    case Skinny => 1
    case Double => 2
    case TriplePlus => 3
  }

  /** The stack of one draft entry. */
  function ClassifyStack(rows: seq<Pick>): (r: Stack)
    ensures r == InvalidStack <==> Count(rows, IsQb) != 1
    ensures forall i :: 0 <= i < |rows| && IsQb(rows[i]) && r != InvalidStack ==>
      Rank(r) == Min3(StackPartners(rows, rows[i].team))
  {
    var qbs := Filter(rows, IsQb);
    if |qbs| != 1 then InvalidStack
    else
      OneQbTeam(rows);
      StackOfSize(StackPartners(rows, qbs[0].team))
  }

  /** With exactly one quarterback row, every quarterback row is that row. */
  lemma OneQbTeam(rows: seq<Pick>)
    requires Count(rows, IsQb) == 1
    ensures forall i :: 0 <= i < |rows| && IsQb(rows[i]) ==> rows[i] == Filter(rows, IsQb)[0]
  {
    var qbs := Filter(rows, IsQb);
    forall i | 0 <= i < |rows| && IsQb(rows[i])
      ensures rows[i] == qbs[0]
    {
      assert rows[i] in qbs;
      assert qbs == [qbs[0]];
    }
  }

  function Min3(k: nat): nat
  {
    if k < 3 then k else 3
  }

  /** Moving a non-quarterback pick from one team other than the quarterback's to
      another team other than the quarterback's never changes the stack. */
  lemma StackIgnoresOtherTeams(rows: seq<Pick>, qb: int, i: int, team: string)
    requires 0 <= qb < |rows| && IsQb(rows[qb])
    requires 0 <= i < |rows| && !IsQb(rows[i])
    requires rows[i].team != rows[qb].team && team != rows[qb].team
    ensures ClassifyStack(rows[i := rows[i].(team := team)]) == ClassifyStack(rows)
  {
    var moved := rows[i := rows[i].(team := team)];
    FilterUpdateOutside(rows, i, moved[i], IsQb);
    var qbs := Filter(rows, IsQb);
    if |qbs| == 1 {
      assert rows[qb] in qbs;
      CountUpdate(rows, i, moved[i], StacksWith(qbs[0].team));
    }
  }

  /** The stack depends on the picks of the entry, not on the order of its rows. */
  lemma StackIgnoresRowOrder(a: seq<Pick>, b: seq<Pick>)
    requires multiset(a) == multiset(b)
    ensures ClassifyStack(a) == ClassifyStack(b)
  {
    CountPermutation(a, b, IsQb);
    var qa := Filter(a, IsQb);
    var qb := Filter(b, IsQb);
    if |qa| == 1 {
      assert qa[0] in qa;
      assert qa[0] in multiset(b);
      assert qa[0] in qb;
      assert qb[0] in qb;
      CountPermutation(a, b, StacksWith(qa[0].team));
    }
  }
}
