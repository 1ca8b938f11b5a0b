/** The NBA classifiers of one draft entry: the per-position count table, and the
    stack label read from the entry's picks-per-team counts, largest first. */
module Nba {
  import opened Seqs
  import opened Picks
  import opened SportDetect

  /** The position count table: every NBA position mapped to its number of picks.
      A position outside the NBA list has no slot in the table, which raises. */
  function CountTable(counts: multiset<string>): (r: Result<map<string, nat>>)
    ensures r.Ok? <==> forall p :: p in counts ==> p in NbaPositions
    ensures r.Err? ==> r.error == UnknownPosition
    ensures r.Ok? ==> forall p :: p in r.value <==> p in NbaPositions
    ensures r.Ok? ==> forall p :: p in r.value ==> r.value[p] == counts[p]
  {
    if exists p :: p in counts && p !in NbaPositions then Err(UnknownPosition)
    else
      Ok(map p | p in NbaPositions :: counts[p])
  }

  /** The five slots of a count table add up to the entry's number of picks. */
  lemma CountTableTotal(counts: multiset<string>)
    requires CountTable(counts).Ok?
    ensures var t := CountTable(counts).value;
      t["PG"] + t["SG"] + t["SF"] + t["PF"] + t["C"] == |counts|
  {
    var keys := NbaPositions;
    SizeIsSumOfCounts(counts, keys);
    assert keys[1..] == ["SG", "SF", "PF", "C"] && keys[1..][1..] == ["SF", "PF", "C"];
    assert keys[1..][1..][1..] == ["PF", "C"] && keys[1..][1..][1..][1..] == ["C"];
    assert keys[1..][1..][1..][1..][1..] == [];
    assert SumOfCounts(counts, ["C"]) == counts["C"];
    assert SumOfCounts(counts, ["PF", "C"]) == counts["PF"] + counts["C"];
    assert SumOfCounts(counts, ["SF", "PF", "C"]) == counts["SF"] + counts["PF"] + counts["C"];
  }

  // ---------------------------------------------------------------------------
  // Picks per team.

  /** The distinct elements of `m`. */
  function Support(m: multiset<string>): set<string>
  {
    set t | t in m
  }

  /** An element of a non-empty multiset, fixed by the multiset alone. */
  ghost function AnyElement(m: multiset<string>): (t: string)
    requires |m| > 0
    ensures t in m
  {
    var t :| t in m; t
  }

  /** The multiplicity of each distinct element of `m`, one per element, in an
      order fixed by `m` alone (the reference the computed counts are held to). */
  ghost function Multiplicities(m: multiset<string>): (c: seq<nat>)
    decreases |m|
  {
    if |m| == 0 then []
    else
      var t := AnyElement(m);
      [m[t]] + Multiplicities(m[t := 0])
  }

  /** The multiplicities add up to the size of `m`, there is one per distinct
      element, and none is zero. */
  lemma {:induction false} MultiplicitiesFacts(m: multiset<string>)
    ensures Sum(Multiplicities(m)) == |m|
    ensures |Multiplicities(m)| == |Support(m)|
    ensures forall i :: 0 <= i < |Multiplicities(m)| ==> Multiplicities(m)[i] >= 1
    decreases |m|
  {
    if |m| > 0 {
      var t := AnyElement(m);
      var rest := m[t := 0];
      assert Support(rest) == Support(m) - {t};
      MultiplicitiesFacts(rest);
      assert Multiplicities(m) == [m[t]] + Multiplicities(rest);
    } else {
      assert Support(m) == {};
    }
  }

  /** Whichever element is taken out first, the multiplicities are the same. */
  lemma {:induction false} MultiplicitiesTake(m: multiset<string>, t: string)
    requires t in m
    ensures multiset(Multiplicities(m)) == multiset{m[t]} + multiset(Multiplicities(m[t := 0]))
    decreases |m|
  {
    var u := AnyElement(m);
    var mu := m[u := 0];
    assert Multiplicities(m) == [m[u]] + Multiplicities(mu);
    assert multiset(Multiplicities(m)) == multiset{m[u]} + multiset(Multiplicities(mu));
    if u != t {
      var mt := m[t := 0];
      MultiplicitiesTake(mu, t);
      MultiplicitiesTake(mt, u);
      assert mu[t := 0] == mt[u := 0];
      assert mu[t] == m[t] && mt[u] == m[u];
      var rest := multiset(Multiplicities(mu[t := 0]));
      calc {
        multiset(Multiplicities(m));
        multiset{m[u]} + (multiset{m[t]} + rest);
        multiset{m[t]} + (multiset{m[u]} + rest);
        multiset{m[t]} + multiset(Multiplicities(mt));
      }
    }
  }

  /** Renaming the elements one-to-one keeps the multiplicities. */
  lemma {:induction false} MultiplicitiesRename(m: multiset<string>, n: multiset<string>, f: string -> string)
    requires forall x, y :: x in m && y in m && f(x) == f(y) ==> x == y
    requires forall x :: x in m ==> n[f(x)] == m[x]
    requires forall u :: u in n ==> exists x :: x in m && f(x) == u
    ensures multiset(Multiplicities(m)) == multiset(Multiplicities(n))
    decreases |m|
  {
    if |m| == 0 {
      assert forall u :: u !in n;
      assert n == multiset{};
    } else {
      var t :| t in m;
      MultiplicitiesTake(m, t);
      MultiplicitiesTake(n, f(t));
      RenameStep(m, n, f, t, m[t := 0], n[f(t) := 0]);
      MultiplicitiesRename(m[t := 0], n[f(t) := 0], f);
    }
  }

  /** Removing one element and its image keeps a one-to-one renaming. */
  lemma RenameStep(m: multiset<string>, n: multiset<string>, f: string -> string, t: string,
                   m': multiset<string>, n': multiset<string>)
    requires forall x, y :: x in m && y in m && f(x) == f(y) ==> x == y
    requires forall x :: x in m ==> n[f(x)] == m[x]
    requires forall u :: u in n ==> exists x :: x in m && f(x) == u
    requires t in m && m' == m[t := 0] && n' == n[f(t) := 0]
    ensures forall x :: x in m' ==> n'[f(x)] == m'[x]
    ensures forall u :: u in n' ==> exists x :: x in m' && f(x) == u
  {
    forall x | x in m'
      ensures n'[f(x)] == m'[x]
    {
      assert x != t;
    }
    forall u | u in n'
      ensures exists x :: x in m' && f(x) == u
    {
      var x :| x in m && f(x) == u;
      assert x != t;
      assert x in m';
    }
  }

  /** `f` applied to every team of `teams`. */
  function Rename(f: string -> string, teams: seq<string>): (r: seq<string>)
    ensures |r| == |teams|
    ensures forall i :: 0 <= i < |teams| ==> r[i] == f(teams[i])
  {
    if |teams| == 0 then [] else [f(teams[0])] + Rename(f, teams[1..])
  }

  /** Renaming moves the multiplicity of `x` to `f(x)` when no other team of the
      sequence shares its new name. */
  lemma {:induction false} RenameMultiplicity(f: string -> string, teams: seq<string>, x: string)
    requires forall y :: y in teams && f(y) == f(x) ==> y == x
    ensures multiset(Rename(f, teams))[f(x)] == multiset(teams)[x]
  {
    if |teams| > 0 {
      var tail := teams[1..];
      assert teams == [teams[0]] + tail;
      assert forall y :: y in tail ==> y in teams;
      RenameMultiplicity(f, tail, x);
      var a := multiset(Rename(f, teams))[f(x)];
      var b := multiset(Rename(f, tail))[f(x)];
      assert a == b + (if f(teams[0]) == f(x) then 1 else 0);
      assert multiset(teams)[x] == multiset(tail)[x] + (if teams[0] == x then 1 else 0);
    }
  }

  /** Renaming creates no names other than the images of the old ones. */
  lemma RenameImage(f: string -> string, teams: seq<string>, u: string)
    requires u in multiset(Rename(f, teams))
    ensures exists x :: x in teams && f(x) == u
  {
    var r := Rename(f, teams);
    assert u in r;
    var i :| 0 <= i < |r| && r[i] == u;
    assert teams[i] in teams;
  }

  /** Mask "differs from `t`". */
  function Differs(t: string): string -> bool
  {
    (x: string) => x != t
  }

  /** Dropping every copy of `t` from a sequence zeroes its multiplicity. */
  lemma {:induction false} DropAll(s: seq<string>, t: string)
    ensures multiset(Filter(s, Differs(t))) == multiset(s)[t := 0]
  {
    if |s| > 0 {
      DropAll(s[1..], t);
      FilterConcat([s[0]], s[1..], Differs(t));
      assert s == [s[0]] + s[1..];
    }
  }

  /** The number of picks of each distinct team, in order of first appearance. */
  function TeamSizes(teams: seq<string>): (c: seq<nat>)
    ensures multiset(c) == multiset(Multiplicities(multiset(teams)))
    decreases |teams|
  {
    if |teams| == 0 then []
    else
      var t := teams[0];
      var rest := Filter(teams[1..], Differs(t));
      DropAll(teams[1..], t);
      MultiplicitiesTake(multiset(teams), t);
      assert teams == [t] + teams[1..];
      assert multiset(rest) == multiset(teams)[t := 0];
      [multiset(teams)[t]] + TeamSizes(rest)
  }

  /** The picks-per-team counts of an entry, largest first (`value_counts()`). */
  function TeamCounts(teams: seq<string>): (c: seq<nat>)
    ensures NonIncreasing(c, Id)
    ensures multiset(c) == multiset(Multiplicities(multiset(teams)))
    ensures Sum(c) == |teams|
    ensures |c| == |set t | t in teams|
    ensures forall i :: 0 <= i < |c| ==> c[i] >= 1
  {
    var c := SortDesc(TeamSizes(teams), Id);
    CountsFacts(teams, c);
    c
  }

  lemma CountsFacts(teams: seq<string>, c: seq<nat>)
    requires multiset(c) == multiset(Multiplicities(multiset(teams)))
    ensures Sum(c) == |teams|
    ensures |c| == |set t | t in teams|
    ensures forall i :: 0 <= i < |c| ==> c[i] >= 1
  {
    var m := multiset(teams);
    var d := Multiplicities(m);
    MultiplicitiesFacts(m);
    SumPermutation(d, c);
    assert |c| == |multiset(c)| == |multiset(d)| == |d|;
    assert Support(m) == set t | t in teams;
    forall i | 0 <= i < |c|
      ensures c[i] >= 1
    {
      assert c[i] in multiset(d);
    }
  }

  // ---------------------------------------------------------------------------
  // The stack label.

  datatype Stack =
    | SixUnique | ThreeThree | ThreeTwoOne | ThreeOneOneOne
    | TwoTwoTwo | TwoTwoOneOne | TwoOneOneOneOne | OtherStack

  function StackText(s: Stack): string
  {
    match s
    case SixUnique => "6 Unique"
    case ThreeThree => "3-3"
    case ThreeTwoOne => "3-2-1"
    case ThreeOneOneOne => "3-1-1-1"
    case TwoTwoTwo => "2-2-2"
    case TwoTwoOneOne => "2-2-1-1"
    case TwoOneOneOneOne => "2-1-1-1-1"
    case OtherStack => "Other"
  }

  /** The decision table over the sorted counts `c`. Reading a count past the end
      of `c` raises, as positional indexing does in the dashboard: that happens
      exactly for no picks, a single team of two or three picks, or two teams of
      two picks each. */
  function StackOfCounts(c: seq<nat>): (r: Result<Stack>)
    ensures r.Err? ==> r.error == MissingIndex
    ensures r.Err? <==> c == [] || c == [2] || c == [3] || c == [2, 2]
    ensures r == Ok(SixUnique) <==> |c| == 6
  {
    if |c| == 6 then Ok(SixUnique)
    else if |c| == 0 then Err(MissingIndex)
    else if c[0] == 3 then
      if |c| < 2 then Err(MissingIndex)
      else if c[1] == 3 then Ok(ThreeThree)
      else if c[1] == 2 then Ok(ThreeTwoOne)
      else Ok(ThreeOneOneOne)
    else if c[0] == 2 then
      if |c| < 2 then Err(MissingIndex)
      else if c[1] == 2 then
        if |c| < 3 then Err(MissingIndex)
        else if c[2] == 2 then Ok(TwoTwoTwo)
        else Ok(TwoTwoOneOne)
      else Ok(TwoOneOneOneOne)
    else Ok(OtherStack)
  }

  /** The stack label of one draft entry, from its picks' teams. */
  function ClassifyStack(teams: seq<string>): (r: Result<Stack>)
    ensures r == Ok(SixUnique) <==> |set t | t in teams| == 6
    ensures r.Err? ==> r.error == MissingIndex
  {
    StackOfCounts(TeamCounts(teams))
  }

  /** The label is unchanged by permuting the rows and renaming the teams
      one-to-one: it sees only how many picks each team has. */
  lemma StackIgnoresTeamNames(a: seq<string>, b: seq<string>, f: string -> string)
    requires forall x, y :: x in a && y in a && f(x) == f(y) ==> x == y
    requires multiset(b) == multiset(Rename(f, a))
    ensures TeamCounts(b) == TeamCounts(a)
    ensures ClassifyStack(b) == ClassifyStack(a)
  {
    var m := multiset(a);
    var n := multiset(b);
    forall x | x in m
      ensures n[f(x)] == m[x]
    {
      RenameMultiplicity(f, a, x);
    }
    forall u | u in n
      ensures exists x :: x in m && f(x) == u
    {
      RenameImage(f, a, u);
      var x :| x in a && f(x) == u;
      assert x in m;
    }
    MultiplicitiesRename(m, n, f);
    NonIncreasingUnique(TeamCounts(a), TeamCounts(b));
  }

  // ---------------------------------------------------------------------------
  // Six-pick entries: the label spells out the partition of six.

  /** A count as decimal digits. */
  function Digits(n: nat): string
  {
    if n < 10 then [(48 + n) as char] else Digits(n / 10) + [(48 + n % 10) as char]
  }

  /** Counts joined by '-', as in "3-2-1". */
  function JoinCounts(c: seq<nat>): string
  {
    if |c| == 0 then ""
    else if |c| == 1 then Digits(c[0])
    else Digits(c[0]) + "-" + JoinCounts(c[1..])
  }

  lemma JoinCons(a: nat, rest: seq<nat>)
    requires |rest| > 0
    ensures JoinCounts([a] + rest) == Digits(a) + "-" + JoinCounts(rest)
  {
    assert ([a] + rest)[1..] == rest;
  }

  lemma {:induction false} SumAtLeastLength(c: seq<nat>)
    requires forall i :: 0 <= i < |c| ==> c[i] >= 1
    ensures Sum(c) >= |c|
  {
    if |c| > 0 {
      SumAtLeastLength(c[1..]);
    }
  }

  lemma {:induction false} SumOfOnes(c: seq<nat>)
    requires forall i :: 0 <= i < |c| ==> c[i] == 1
    ensures Sum(c) == |c|
  {
    if |c| > 0 {
      SumOfOnes(c[1..]);
    }
  }

  /** After a count of 1 a largest-first list of positive counts holds only 1s. */
  lemma OnesAfter(c: seq<nat>, k: nat)
    requires NonIncreasing(c, Id)
    requires forall i :: 0 <= i < |c| ==> c[i] >= 1
    requires k < |c| && c[k] == 1
    ensures Sum(c[k..]) == |c| - k
    ensures forall i :: k <= i < |c| ==> c[i] == 1
  {
    assert forall i :: k <= i < |c| ==> Id(c[k]) >= Id(c[i]);
    SumOfOnes(c[k..]);
  }

  /** The sum of the first `k` counts and the rest. */
  lemma SumPrefix(c: seq<nat>, k: nat)
    requires k <= |c|
    ensures Sum(c) == Sum(c[..k]) + Sum(c[k..])
  {
    assert c == c[..k] + c[k..];
    SumConcat(c[..k], c[k..]);
  }

  /** The largest-first partitions of six with largest part three. */
  lemma PartitionsTopThree(c: seq<nat>)
    requires NonIncreasing(c, Id)
    requires forall i :: 0 <= i < |c| ==> c[i] >= 1
    requires |c| >= 2 && c[0] == 3 && Sum(c) == 6
    ensures c == [3, 3] || c == [3, 2, 1] || c == [3, 1, 1, 1]
  {
    assert Sum(c) == c[0] + Sum(c[1..]);
    assert Sum(c[1..]) == c[1] + Sum(c[2..]);
    assert forall i :: 1 <= i < |c| ==> Id(c[1]) >= Id(c[i]);
    SumAtLeastLength(c[2..]);
    if c[1] == 1 {
      OnesAfter(c, 1);
      assert |c| == 4;
      assert c[2] == 1 && c[3] == 1;
      assert c == [3, 1, 1, 1];
    } else if c[1] == 2 {
      assert |c| == 3;
      assert c[2] == 1;
      assert c == [3, 2, 1];
    } else {
      assert |c| == 2;
      assert c == [3, 3];
    }
  }

  /** The largest-first partitions of six with largest part two. */
  lemma PartitionsTopTwo(c: seq<nat>)
    requires NonIncreasing(c, Id)
    requires forall i :: 0 <= i < |c| ==> c[i] >= 1
    requires |c| >= 3 && c[0] == 2 && Sum(c) == 6
    ensures c == [2, 2, 2] || c == [2, 2, 1, 1] || c == [2, 1, 1, 1, 1]
  {
    assert Id(c[0]) >= Id(c[1]) && Id(c[1]) >= Id(c[2]);
    if c[1] == 1 {
      TwoThenFourOnes(c);
    } else if c[2] == 1 {
      TwoTwosThenOnes(c);
    } else {
      ThreeTwos(c);
    }
  }

  lemma TwoThenFourOnes(c: seq<nat>)
    requires NonIncreasing(c, Id)
    requires forall i :: 0 <= i < |c| ==> c[i] >= 1
    requires |c| >= 2 && c[0] == 2 && c[1] == 1 && Sum(c) == 6
    ensures c == [2, 1, 1, 1, 1]
  {
    TopTwoThenOnes(c, 1);
  }

  lemma TwoTwosThenOnes(c: seq<nat>)
    requires NonIncreasing(c, Id)
    requires forall i :: 0 <= i < |c| ==> c[i] >= 1
    requires |c| >= 3 && c[0] == 2 && c[1] == 2 && c[2] == 1 && Sum(c) == 6
    ensures c == [2, 2, 1, 1]
  {
    TopTwoThenOnes(c, 2);
  }

  lemma ThreeTwos(c: seq<nat>)
    requires forall i :: 0 <= i < |c| ==> c[i] >= 1
    requires |c| >= 3 && c[0] == 2 && c[1] == 2 && c[2] == 2 && Sum(c) == 6
    ensures c == [2, 2, 2]
  {
    SumPrefix(c, 3);
    TwosSum(c[..3]);
    SumAtLeastLength(c[3..]);
  }

  /** Twos down to index `k`, then ones: the length is fixed by the sum. */
  lemma TopTwoThenOnes(c: seq<nat>, k: nat)
    requires NonIncreasing(c, Id)
    requires forall i :: 0 <= i < |c| ==> c[i] >= 1
    requires 1 <= k < |c| && c[k] == 1 && Sum(c) == 6
    requires forall i :: 0 <= i < k ==> c[i] == 2
    ensures |c| == 6 - k && forall i :: k <= i < |c| ==> c[i] == 1
  {
    OnesAfter(c, k);
    SumPrefix(c, k);
    TwosSum(c[..k]);
  }

  lemma {:induction false} TwosSum(c: seq<nat>)
    requires forall i :: 0 <= i < |c| ==> c[i] == 2
    ensures Sum(c) == 2 * |c|
  {
    if |c| > 0 {
      TwosSum(c[1..]);
    }
  }

  lemma TextsTopThree()
    ensures JoinCounts([3, 3]) == "3-3"
    ensures JoinCounts([3, 2, 1]) == "3-2-1"
    ensures JoinCounts([3, 1, 1, 1]) == "3-1-1-1"
  {
    assert Digits(1) == "1" && Digits(2) == "2" && Digits(3) == "3";
    JoinCons(3, [3]);
    JoinCons(1, [1]);
    JoinCons(2, [1]);
    JoinCons(3, [2, 1]);
    JoinCons(1, [1, 1]);
    JoinCons(3, [1, 1, 1]);
  }

  lemma TextsTopTwo()
    ensures JoinCounts([2, 2, 2]) == "2-2-2"
    ensures JoinCounts([2, 2, 1, 1]) == "2-2-1-1"
    ensures JoinCounts([2, 1, 1, 1, 1]) == "2-1-1-1-1"
  {
    assert Digits(1) == "1" && Digits(2) == "2";
    JoinCons(2, [2]);
    JoinCons(2, [2, 2]);
    JoinCons(1, [1]);
    JoinCons(2, [1, 1]);
    JoinCons(2, [2, 1, 1]);
    JoinCons(1, [1, 1]);
    JoinCons(1, [1, 1, 1]);
    JoinCons(2, [1, 1, 1, 1]);
  }

  /** The decision table on any largest-first list of positive counts adding up
      to six: it never raises, a top count of four or more gives "Other", and
      otherwise every label except "6 Unique" spells out the counts. */
  lemma {:induction false} SixPickCounts(c: seq<nat>)
    requires NonIncreasing(c, Id)
    requires forall i :: 0 <= i < |c| ==> c[i] >= 1
    requires Sum(c) == 6
    ensures |c| > 0 && StackOfCounts(c).Ok?
    ensures c[0] >= 4 ==> StackOfCounts(c) == Ok(OtherStack)
    ensures c[0] <= 3 && |c| != 6 ==> StackText(StackOfCounts(c).value) == JoinCounts(c)
  {
    assert |c| > 0;
    assert Sum(c) == c[0] + Sum(c[1..]);
    SumAtLeastLength(c[1..]);
    if |c| != 6 && c[0] <= 3 {
      assert forall i :: 0 <= i < |c| ==> Id(c[0]) >= Id(c[i]);
      if c[0] == 1 {
        assert c[0..] == c;
        OnesAfter(c, 0);
        assert false;
      }
      if c[0] == 3 {
        TextsTopThree();
        PartitionsTopThree(c);
      } else {
        TextsTopTwo();
        assert Sum(c[1..]) == c[1] + Sum(c[2..]);
        SumAtLeastLength(c[2..]);
        PartitionsTopTwo(c);
      }
    }
  }

  /** On a six-pick entry the classifier never raises; a stack with four or more
      picks of one team is "Other"; otherwise, unless all six teams differ, the
      label is exactly the largest-first team counts joined by '-'. */
  lemma SixPickEntries(teams: seq<string>)
    requires |teams| == 6
    ensures ClassifyStack(teams).Ok?
    ensures TeamCounts(teams)[0] >= 4 ==> ClassifyStack(teams) == Ok(OtherStack)
    ensures TeamCounts(teams)[0] <= 3 && |TeamCounts(teams)| != 6 ==>
      StackText(ClassifyStack(teams).value) == JoinCounts(TeamCounts(teams))
  {
    SixPickCounts(TeamCounts(teams));
  }
}
