/** The exposure table and the per-draft metrics of the filtered picks: the number
    of drafts, each draft's first pick, and for every (player, position, team) the
    number of picks, the fees paid and the share of drafts holding it. */
module Exposure {
  import opened Seqs
  import opened Picks
  import opened Filters

  /** The grouping key of the exposure table. */
  datatype Key = Key(player: string, position: string, team: string)

  function KeyOf(p: Pick): Key
  {
    Key(PlayerName(p), p.position, p.team)
  }

  /** Row mask "has key `k`". */
  function HasKey(k: Key): Pick -> bool
  {
    (p: Pick) => KeyOf(p) == k
  }

  /** Row mask "has a key other than `k`". */
  function OtherKey(k: Key): Pick -> bool
  {
    (p: Pick) => KeyOf(p) != k
  }

  /** The distinct keys of `rows`. */
  function Keys(rows: seq<Pick>): set<Key>
  {
    set p | p in rows :: KeyOf(p)
  }

  /** The key of every row, in row order. */
  function KeyColumn(rows: seq<Pick>): (r: seq<Key>)
    ensures |r| == |rows|
  {
    if |rows| == 0 then [] else [KeyOf(rows[0])] + KeyColumn(rows[1..])
  }

  /** An exposure as the exact fraction `num / den`, in percent. */
  datatype Percent = Percent(num: nat, den: nat)

  /** A line of the exposure table. */
  datatype Row = Row(player: string, position: string, team: string, drafts: nat, fees: int, exposure: Percent)

  function RowKey(r: Row): Key
  {
    Key(r.player, r.position, r.team)
  }

  /** The "Total Drafts" column, by which the grouped table is sorted. */
  function Drafts(r: Row): int
  {
    r.drafts
  }

  /** "Total Number of Drafts": the distinct entries left by the filters. */
  function TotalDrafts(rows: seq<Pick>): nat
  {
    |Entries(rows)|
  }

  function FeeSum(rows: seq<Pick>): int
  {
    if |rows| == 0 then 0 else rows[0].fee + FeeSum(rows[1..])
  }

  // ---------------------------------------------------------------------------
  // One draft selected.

  /** With one draft chosen every pick is its own line: one draft, its fee, 100%. */
  function SingleRow(p: Pick): Row
  {
    Row(PlayerName(p), p.position, p.team, 1, p.fee, Percent(100, 1))
  }

  /** Every pick, in table order, as a line of one draft with its own fee at 100%. */
  function SingleDraftTable(rows: seq<Pick>): (r: seq<Row>)
    ensures |r| == |rows|
    ensures forall i :: 0 <= i < |rows| ==>
      RowKey(r[i]) == KeyOf(rows[i]) && r[i].drafts == 1 && r[i].fees == rows[i].fee && r[i].exposure == Percent(100, 1)
  {
    seq(|rows|, i requires 0 <= i < |rows| => SingleRow(rows[i]))
  }

  // ---------------------------------------------------------------------------
  // All drafts: one line per key.

  /** The line of key `k`: how many rows have it, the sum of their fees, and that
      count over the number of drafts, in percent. */
  function Group(rows: seq<Pick>, k: Key): (r: Row)
    ensures RowKey(r) == k
  {
    var n := Count(rows, HasKey(k));
    Row(k.player, k.position, k.team, n, FeeSum(Filter(rows, HasKey(k))), Percent(n * 100, TotalDrafts(rows)))
  }

  /** The distinct keys of `rows`, in order of first appearance. */
  function DistinctKeys(rows: seq<Pick>): (ks: seq<Key>)
    ensures forall k :: k in ks <==> k in Keys(rows)
    ensures Distinct(ks)
    decreases |rows|
  {
    if |rows| == 0 then []
    else
      var k := KeyOf(rows[0]);
      var rest := Filter(rows[1..], OtherKey(k));
      var ks := DistinctKeys(rest);
      KeysOfRest(rows);
      [k] + ks
  }

  /** The keys of a table are its first key and the keys of the later rows that
      carry another key. */
  lemma KeysOfRest(rows: seq<Pick>)
    requires |rows| > 0
    ensures var k := KeyOf(rows[0]);
      forall x :: x in Keys(rows) <==> x == k || x in Keys(Filter(rows[1..], OtherKey(k)))
    ensures KeyOf(rows[0]) !in Keys(Filter(rows[1..], OtherKey(KeyOf(rows[0]))))
  {
    var k := KeyOf(rows[0]);
    var rest := Filter(rows[1..], OtherKey(k));
    assert rows == [rows[0]] + rows[1..];
    forall x | x in Keys(rows) && x != k ensures x in Keys(rest) {
      var p :| p in rows && KeyOf(p) == x;
      assert p in rows[1..];
      assert p in rest;
    }
  }

  /** The lines of the keys `ks`, in that order. */
  function Groups(rows: seq<Pick>, ks: seq<Key>): (r: seq<Row>)
    ensures |r| == |ks|
    ensures forall i :: 0 <= i < |ks| ==> r[i] == Group(rows, ks[i])
  {
    if |ks| == 0 then [] else [Group(rows, ks[0])] + Groups(rows, ks[1..])
  }

  /** The table over all drafts: one line per distinct key, each line holding its
      key's count, fees and exposure, largest count first. */
  function GroupedTable(rows: seq<Pick>): (r: seq<Row>)
    ensures NonIncreasing(r, Drafts)
    ensures forall i :: 0 <= i < |r| ==> r[i] == Group(rows, RowKey(r[i]))
    ensures forall k :: k in Keys(rows) <==> exists i :: 0 <= i < |r| && RowKey(r[i]) == k
    ensures forall i, j :: 0 <= i < j < |r| ==> RowKey(r[i]) != RowKey(r[j])
    ensures |r| == 0 <==> |rows| == 0
  {
    var ks := DistinctKeys(rows);
    var u := Groups(rows, ks);
    var r := SortDesc(u, Drafts);
    SortedGroups(rows, ks, u, r);
    r
  }

  /** Sorting the lines of the distinct keys keeps one line per key. */
  lemma SortedGroups(rows: seq<Pick>, ks: seq<Key>, u: seq<Row>, r: seq<Row>)
    requires forall k :: k in ks <==> k in Keys(rows)
    requires Distinct(ks)
    requires u == Groups(rows, ks)
    requires multiset(r) == multiset(u)
    ensures forall i :: 0 <= i < |r| ==> r[i] == Group(rows, RowKey(r[i]))
    ensures forall k :: k in Keys(rows) <==> exists i :: 0 <= i < |r| && RowKey(r[i]) == k
    ensures forall i, j :: 0 <= i < j < |r| ==> RowKey(r[i]) != RowKey(r[j])
    ensures |r| == 0 <==> |rows| == 0
  {
    SortedGroupsMembers(rows, ks, u, r);
    SortedGroupsDistinct(rows, ks, u, r);
    if |rows| > 0 {
      assert KeyOf(rows[0]) in Keys(rows);
    }
  }

  lemma SortedGroupsMembers(rows: seq<Pick>, ks: seq<Key>, u: seq<Row>, r: seq<Row>)
    requires forall k :: k in ks <==> k in Keys(rows)
    requires u == Groups(rows, ks)
    requires multiset(r) == multiset(u)
    ensures forall i :: 0 <= i < |r| ==> r[i] == Group(rows, RowKey(r[i])) && RowKey(r[i]) in Keys(rows)
    ensures forall k :: k in Keys(rows) ==> exists i :: 0 <= i < |r| && RowKey(r[i]) == k
  {
    PermutationMembers(r, u);
    SortedGroupsCover(rows, ks, u, r);
    SortedGroupsLines(rows, ks, u, r);
  }

  lemma SortedGroupsCover(rows: seq<Pick>, ks: seq<Key>, u: seq<Row>, r: seq<Row>)
    requires forall k :: k in ks <==> k in Keys(rows)
    requires u == Groups(rows, ks)
    requires forall x :: x in r <==> x in u
    ensures forall k :: k in Keys(rows) ==> exists i :: 0 <= i < |r| && RowKey(r[i]) == k
  {
    forall k | k in Keys(rows) ensures exists i :: 0 <= i < |r| && RowKey(r[i]) == k {
      var j :| 0 <= j < |ks| && ks[j] == k;
      assert u[j] in u;
      var i :| 0 <= i < |r| && r[i] == u[j];
    }
  }

  lemma SortedGroupsLines(rows: seq<Pick>, ks: seq<Key>, u: seq<Row>, r: seq<Row>)
    requires forall k :: k in ks <==> k in Keys(rows)
    requires u == Groups(rows, ks)
    requires forall x :: x in r <==> x in u
    ensures forall i :: 0 <= i < |r| ==> r[i] == Group(rows, RowKey(r[i])) && RowKey(r[i]) in Keys(rows)
  {
    forall i | 0 <= i < |r| ensures r[i] == Group(rows, RowKey(r[i])) && RowKey(r[i]) in Keys(rows) {
      assert r[i] in u;
      var j :| 0 <= j < |u| && u[j] == r[i];
      assert ks[j] in ks;
    }
  }

  lemma SortedGroupsDistinct(rows: seq<Pick>, ks: seq<Key>, u: seq<Row>, r: seq<Row>)
    requires Distinct(ks)
    requires u == Groups(rows, ks)
    requires multiset(r) == multiset(u)
    requires forall i :: 0 <= i < |r| ==> r[i] == Group(rows, RowKey(r[i]))
    ensures forall i, j :: 0 <= i < j < |r| ==> RowKey(r[i]) != RowKey(r[j])
  {
    assert Distinct(u) by {
      forall i, j | 0 <= i < j < |u| ensures u[i] != u[j] {
        assert RowKey(u[i]) == ks[i] && RowKey(u[j]) == ks[j];
      }
    }
    DistinctPermutation(u, r);
  }

  /** The exposure table as shown: one line per pick when a draft is chosen, else
      the grouped table. */
  function ExposureTable(rows: seq<Pick>, draft: string): (r: seq<Row>)
    ensures draft != All ==> |r| == |rows|
    ensures draft != All ==> forall i :: 0 <= i < |rows| ==>
      r[i] == Row(PlayerName(rows[i]), rows[i].position, rows[i].team, 1, rows[i].fee, Percent(100, 1))
    ensures draft == All ==> r == GroupedTable(rows)
    ensures draft == All ==> |r| == |Keys(rows)|
  {
    if draft != All then SingleDraftTable(rows)
    else
      var t := GroupedTable(rows);
      TableSize(rows, t);
      t
  }

  /** A table with one line per key has as many lines as there are keys. */
  lemma TableSize(rows: seq<Pick>, t: seq<Row>)
    requires forall k :: k in Keys(rows) <==> exists i :: 0 <= i < |t| && RowKey(t[i]) == k
    requires forall i, j :: 0 <= i < j < |t| ==> RowKey(t[i]) != RowKey(t[j])
    ensures |t| == |Keys(rows)|
  {
    var column := seq(|t|, i requires 0 <= i < |t| => RowKey(t[i]));
    assert Distinct(column);
    forall k ensures k in column <==> k in Keys(rows) {
      if k in Keys(rows) {
        var i :| 0 <= i < |t| && RowKey(t[i]) == k;
        assert column[i] == k;
      }
    }
    DistinctCardinality(column, Keys(rows));
  }

  lemma {:induction false} DistinctCardinality(s: seq<Key>, keys: set<Key>)
    requires Distinct(s)
    requires forall k :: k in s <==> k in keys
    ensures |s| == |keys|
  {
    if |s| > 0 {
      assert s == [s[0]] + s[1..];
      assert forall k :: 0 <= k < |s| - 1 ==> s[1..][k] == s[k + 1] != s[0];
      DistinctCardinality(s[1..], keys - {s[0]});
    } else {
      assert forall k :: k !in keys;
      assert keys == {};
    }
  }

  // ---------------------------------------------------------------------------
  // Properties of the grouped table.

  lemma {:induction false} CountIsMultiplicity(rows: seq<Pick>, k: Key)
    ensures Count(rows, HasKey(k)) == multiset(KeyColumn(rows))[k]
  {
    if |rows| > 0 {
      CountIsMultiplicity(rows[1..], k);
      assert rows == [rows[0]] + rows[1..];
      FilterConcat([rows[0]], rows[1..], HasKey(k));
      assert KeyColumn(rows) == [KeyOf(rows[0])] + KeyColumn(rows[1..]);
    }
  }

  lemma {:induction false} GroupsSum(rows: seq<Pick>, ks: seq<Key>)
    ensures SumBy(Groups(rows, ks), Drafts) == SumOfCounts(multiset(KeyColumn(rows)), ks)
  {
    if |ks| > 0 {
      GroupsSum(rows, ks[1..]);
      CountIsMultiplicity(rows, ks[0]);
      assert Groups(rows, ks)[1..] == Groups(rows, ks[1..]);
    }
  }

  lemma {:induction false} KeyColumnElements(rows: seq<Pick>)
    ensures forall k :: k in KeyColumn(rows) ==> k in Keys(rows)
  {
    if |rows| > 0 {
      KeyColumnElements(rows[1..]);
      assert rows[0] in rows;
      assert forall p :: p in rows[1..] ==> p in rows;
    }
  }

  /** Every pick is counted on exactly one line: the counts add up to the number of
      filtered picks. */
  lemma DraftsAddUp(rows: seq<Pick>)
    ensures SumBy(GroupedTable(rows), Drafts) == |rows|
  {
    var ks := DistinctKeys(rows);
    var u := Groups(rows, ks);
    var m := multiset(KeyColumn(rows));
    KeyColumnElements(rows);
    GroupsSum(rows, ks);
    SizeIsSumOfCounts(m, ks);
    SumByPermutation(u, SortDesc(u, Drafts), Drafts);
  }

  /** No draft holds the same key twice (a draft picks a player once). */
  ghost predicate OncePerDraft(rows: seq<Pick>)
  {
    forall i, j :: 0 <= i < j < |rows| && KeyOf(rows[i]) == KeyOf(rows[j]) ==> rows[i].entry != rows[j].entry
  }

  /** The drafts holding key `k`. */
  function KeyEntries(rows: seq<Pick>, k: Key): set<string>
  {
    set p | p in rows && KeyOf(p) == k :: p.entry
  }

  lemma {:induction false} CountIsKeyEntries(rows: seq<Pick>, k: Key)
    requires OncePerDraft(rows)
    ensures Count(rows, HasKey(k)) == |KeyEntries(rows, k)|
  {
    if |rows| > 0 {
      var x := rows[0];
      var t := rows[1..];
      assert rows == [x] + t;
      OncePerDraftTail(rows);
      CountIsKeyEntries(t, k);
      FilterConcat([x], t, HasKey(k));
      KeyEntriesCons(rows, k);
      if KeyOf(x) == k {
        FirstEntryIsNew(rows, k);
      }
    } else {
      assert KeyEntries(rows, k) == {};
    }
  }

  lemma KeyEntriesCons(rows: seq<Pick>, k: Key)
    requires |rows| > 0
    ensures KeyEntries(rows, k) ==
      (if KeyOf(rows[0]) == k then {rows[0].entry} else {}) + KeyEntries(rows[1..], k)
  {
    assert rows == [rows[0]] + rows[1..];
  }

  lemma OncePerDraftTail(rows: seq<Pick>)
    requires |rows| > 0 && OncePerDraft(rows)
    ensures OncePerDraft(rows[1..])
  {
    var t := rows[1..];
    forall i, j | 0 <= i < j < |t| && KeyOf(t[i]) == KeyOf(t[j]) ensures t[i].entry != t[j].entry {
      assert t[i] == rows[i + 1] && t[j] == rows[j + 1];
    }
  }

  /** The first row's draft holds its key nowhere else. */
  lemma FirstEntryIsNew(rows: seq<Pick>, k: Key)
    requires |rows| > 0 && OncePerDraft(rows) && KeyOf(rows[0]) == k
    ensures rows[0].entry !in KeyEntries(rows[1..], k)
  {
    var t := rows[1..];
    forall p | p in t && KeyOf(p) == k ensures p.entry != rows[0].entry {
      var j :| 0 <= j < |t| && t[j] == p;
      assert rows[j + 1] == p;
    }
  }

  /** When no draft holds a key twice, no exposure exceeds 100%. */
  lemma ExposureAtMost100(rows: seq<Pick>)
    requires OncePerDraft(rows)
    ensures forall i :: 0 <= i < |GroupedTable(rows)| ==>
      GroupedTable(rows)[i].exposure.num <= 100 * GroupedTable(rows)[i].exposure.den
  {
    var t := GroupedTable(rows);
    forall i | 0 <= i < |t|
      ensures t[i].exposure.num <= 100 * t[i].exposure.den
    {
      var k := RowKey(t[i]);
      CountIsKeyEntries(rows, k);
      assert KeyEntries(rows, k) <= Entries(rows);
      assert |KeyEntries(rows, k)| <= |Entries(rows)| by {
        SubsetCardinality(KeyEntries(rows, k), Entries(rows));
      }
    }
  }

  lemma SubsetCardinality(a: set<string>, b: set<string>)
    requires a <= b
    ensures |a| <= |b|
  {
    assert b == a + (b - a);
  }

  /** The grouped table is ordered by exposure, largest first: every line shares
      the same denominator, so comparing exposures compares counts. */
  lemma ExposureNonIncreasing(rows: seq<Pick>)
    ensures var t := GroupedTable(rows);
      forall i, j :: 0 <= i < j < |t| ==>
        t[i].exposure.den == t[j].exposure.den && t[i].exposure.num >= t[j].exposure.num
  {
    var t := GroupedTable(rows);
    forall i, j | 0 <= i < j < |t|
      ensures t[i].exposure.den == t[j].exposure.den && t[i].exposure.num >= t[j].exposure.num
    {
      assert Drafts(t[i]) >= Drafts(t[j]);
      assert t[i].exposure == Percent(t[i].drafts * 100, TotalDrafts(rows));
      assert t[j].exposure == Percent(t[j].drafts * 100, TotalDrafts(rows));
    }
  }

  /** Exposure never divides by zero: a non-empty table has at least one draft. */
  lemma ExposureDefined(rows: seq<Pick>)
    ensures forall i :: 0 <= i < |GroupedTable(rows)| ==> GroupedTable(rows)[i].exposure.den > 0
  {
    if |rows| > 0 {
      assert rows[0].entry in Entries(rows);
    }
  }

  /** On one draft in which no key repeats, both modes show the same lines: each key
      is counted once, with its own fee, at 100%. */
  lemma SingleDraftAgreesWithGrouped(rows: seq<Pick>, e: string)
    requires forall p :: p in rows ==> p.entry == e
    requires forall i, j :: 0 <= i < j < |rows| ==> KeyOf(rows[i]) != KeyOf(rows[j])
    ensures forall x :: x in SingleDraftTable(rows) <==> x in GroupedTable(rows)
  {
    SingleLinesAreGrouped(rows, e);
    GroupedLinesAreSingle(rows, e);
  }

  lemma SingleLinesAreGrouped(rows: seq<Pick>, e: string)
    requires forall p :: p in rows ==> p.entry == e
    requires forall i, j :: 0 <= i < j < |rows| ==> KeyOf(rows[i]) != KeyOf(rows[j])
    ensures forall x :: x in SingleDraftTable(rows) ==> x in GroupedTable(rows)
  {
    var s := SingleDraftTable(rows);
    var g := GroupedTable(rows);
    forall x | x in s ensures x in g {
      var i :| 0 <= i < |s| && s[i] == x;
      var p := rows[i];
      OwnGroup(rows, e, p);
      assert KeyOf(p) in Keys(rows);
      var j :| 0 <= j < |g| && RowKey(g[j]) == KeyOf(p);
    }
  }

  lemma GroupedLinesAreSingle(rows: seq<Pick>, e: string)
    requires forall p :: p in rows ==> p.entry == e
    requires forall i, j :: 0 <= i < j < |rows| ==> KeyOf(rows[i]) != KeyOf(rows[j])
    ensures forall x :: x in GroupedTable(rows) ==> x in SingleDraftTable(rows)
  {
    var s := SingleDraftTable(rows);
    var g := GroupedTable(rows);
    forall x | x in g ensures x in s {
      var j :| 0 <= j < |g| && g[j] == x;
      assert RowKey(g[j]) in Keys(rows);
      var p :| p in rows && KeyOf(p) == RowKey(x);
      OwnGroup(rows, e, p);
      var i :| 0 <= i < |rows| && rows[i] == p;
      assert s[i] == x;
    }
  }

  lemma OwnGroup(rows: seq<Pick>, e: string, p: Pick)
    requires forall q :: q in rows ==> q.entry == e
    requires forall i, j :: 0 <= i < j < |rows| ==> KeyOf(rows[i]) != KeyOf(rows[j])
    requires p in rows
    ensures Group(rows, KeyOf(p)) == SingleRow(p)
  {
    var k := KeyOf(p);
    var f := Filter(rows, HasKey(k));
    assert Entries(rows) == {e} by {
      assert p.entry in Entries(rows);
    }
    CountIsKeyEntries(rows, k);
    assert KeyEntries(rows, k) == {e} by {
      assert p.entry in KeyEntries(rows, k);
    }
    assert |f| == 1;
    assert p in f;
    assert f == [p];
    assert FeeSum(f) == p.fee;
  }

  /** Choosing a draft in the last box leaves at most that one draft. */
  lemma DraftChoiceLeavesOneDraft(base: seq<Pick>, s: Selection)
    requires s.draft != All
    ensures Entries(Cascade(base, s)) <= {s.draft}
    ensures TotalDrafts(Cascade(base, s)) <= 1
  {
    var r := Cascade(base, s);
    assert Entries(r) <= {s.draft};
    SubsetCardinality(Entries(r), {s.draft});
  }

  // ---------------------------------------------------------------------------
  // Draft position.

  /** The smallest pick number of a non-empty group of rows. */
  function MinPick(rows: seq<Pick>): (m: int)
    requires |rows| > 0
    ensures exists i :: 0 <= i < |rows| && rows[i].pickNumber == m
    ensures forall i :: 0 <= i < |rows| ==> m <= rows[i].pickNumber
  {
    if |rows| == 1 then rows[0].pickNumber
    else
      var m := MinPick(rows[1..]);
      assert forall i :: 1 <= i < |rows| ==> rows[i] == rows[1..][i - 1];
      if rows[0].pickNumber <= m then rows[0].pickNumber else m
  }

  /** "Draft Position": each filtered draft mapped to the first pick it made. */
  function DraftPositions(rows: seq<Pick>): (r: map<string, int>)
    ensures r.Keys == Entries(rows)
    ensures forall e :: e in r ==> exists p :: p in rows && p.entry == e && p.pickNumber == r[e]
    ensures forall p :: p in rows ==> r[p.entry] <= p.pickNumber
  {
    var r := map e | e in Entries(rows) :: MinPick(EntryRows(rows, e));
    assert r.Keys == Entries(rows);
    DraftPositionsFacts(rows, r);
    r
  }

  lemma DraftPositionsFacts(rows: seq<Pick>, r: map<string, int>)
    requires forall e :: e in r <==> e in Entries(rows)
    requires forall e :: e in r ==> r[e] == MinPick(EntryRows(rows, e))
    ensures forall e :: e in r ==> exists p :: p in rows && p.entry == e && p.pickNumber == r[e]
    ensures forall p :: p in rows ==> r[p.entry] <= p.pickNumber
  {
    forall p | p in rows ensures r[p.entry] <= p.pickNumber {
      assert p.entry in Entries(rows);
      EntryMinimum(rows, p.entry);
    }
    forall e | e in r ensures exists p :: p in rows && p.entry == e && p.pickNumber == r[e] {
      EntryMinimum(rows, e);
    }
  }

  /** The first pick of one draft is a pick of that draft, and no pick of it is earlier. */
  lemma EntryMinimum(rows: seq<Pick>, e: string)
    requires e in Entries(rows)
    ensures exists p :: p in rows && p.entry == e && p.pickNumber == MinPick(EntryRows(rows, e))
    ensures forall p :: p in rows && p.entry == e ==> MinPick(EntryRows(rows, e)) <= p.pickNumber
  {
    var g := EntryRows(rows, e);
    var m := MinPick(g);
    var i :| 0 <= i < |g| && g[i].pickNumber == m;
    assert g[i] in g;
    forall p | p in rows && p.entry == e ensures m <= p.pickNumber {
      assert p in g;
      var j :| 0 <= j < |g| && g[j] == p;
    }
  }
}
