/** Draft sanitisation: a draft pool is kept only when its number of rows is a
    multiple of the roster size; every other pool is dropped whole. */
module Sanitize {
  import opened Seqs
  import opened Picks

  /** Picks per draft entry, for both supported sports. */
  const RosterSize: nat := 6

  /** Number of rows of draft pool `q` (`groupby('Draft Pool').size()`). */
  function PoolSize(rows: seq<Pick>, q: string): nat
  {
    Count(rows, PoolIs(q))
  }

  /** Row mask "its pool's row count in `rows` is a multiple of the roster size". */
  function InCompletePool(rows: seq<Pick>): Pick -> bool
  {
    (p: Pick) => PoolSize(rows, p.pool) % RosterSize == 0
  }

  /** The sanitised table: the rows of complete pools, in their original order. */
  function Sanitized(rows: seq<Pick>): (r: seq<Pick>)
    ensures forall p :: p in r <==> p in rows && PoolSize(rows, p.pool) % RosterSize == 0
    ensures |r| <= |rows|
  {
    Filter(rows, InCompletePool(rows))
  }

  /** A pool survives whole or not at all: its row count after sanitising is either
      its full original count (a multiple of six) or zero. */
  lemma {:induction false} WholePoolsOnly(rows: seq<Pick>, q: string)
    ensures PoolSize(rows, q) % RosterSize == 0 ==> PoolSize(Sanitized(rows), q) == PoolSize(rows, q)
    ensures PoolSize(rows, q) % RosterSize != 0 ==> PoolSize(Sanitized(rows), q) == 0
  {
    if PoolSize(rows, q) % RosterSize == 0 {
      CountAfterFilterKeeping(rows, InCompletePool(rows), PoolIs(q));
    } else {
      CountAfterFilterDropping(rows, InCompletePool(rows), PoolIs(q));
    }
  }

  /** Every pool left after sanitising has a row count that is a multiple of six. */
  lemma SanitizedPoolsComplete(rows: seq<Pick>, q: string)
    ensures PoolSize(Sanitized(rows), q) % RosterSize == 0
  {
    WholePoolsOnly(rows, q);
    var n := PoolSize(rows, q);
    if n % RosterSize == 0 {
      assert PoolSize(Sanitized(rows), q) == n;
    } else {
      assert PoolSize(Sanitized(rows), q) == 0;
    }
  }

  /** Sanitising a sanitised table changes nothing. */
  lemma SanitizedIdempotent(rows: seq<Pick>)
    ensures Sanitized(Sanitized(rows)) == Sanitized(rows)
  {
    var r := Sanitized(rows);
    forall p | p in r
      ensures InCompletePool(r)(p)
    {
      WholePoolsOnly(rows, p.pool);
    }
    FilterKeepsAll(r, InCompletePool(r));
  }

  /** One pass over the table counting the rows of each pool. */
  method CountPools(rows: seq<Pick>) returns (sizes: map<string, nat>)
    ensures forall q :: PoolSize(rows, q) == (if q in sizes then sizes[q] else 0)
    ensures forall j :: 0 <= j < |rows| ==> rows[j].pool in sizes
  {
    sizes := map[];
    var i := 0;
    while i < |rows|
      invariant 0 <= i <= |rows|
      invariant forall q :: PoolSize(rows[..i], q) == (if q in sizes then sizes[q] else 0)
    {
      var q := rows[i].pool;
      PoolSizeStep(rows, i);
      var n := if q in sizes then sizes[q] else 0;
      sizes := sizes[q := n + 1];
      i := i + 1;
    }
    assert rows[..i] == rows;
    forall j | 0 <= j < |rows|
      ensures rows[j].pool in sizes
    {
      assert PoolIs(rows[j].pool)(rows[j]);
      assert rows[j] in Filter(rows, PoolIs(rows[j].pool));
    }
  }

  lemma PoolSizeStep(rows: seq<Pick>, i: int)
    requires 0 <= i < |rows|
    ensures forall q :: PoolSize(rows[..i + 1], q) == PoolSize(rows[..i], q) + (if rows[i].pool == q then 1 else 0)
  {
    assert rows[..i + 1] == rows[..i] + [rows[i]];
    forall q
      ensures PoolSize(rows[..i + 1], q) == PoolSize(rows[..i], q) + (if rows[i].pool == q then 1 else 0)
    {
      FilterConcat(rows[..i], [rows[i]], PoolIs(q));
    }
  }

  /** The sanitisation step as the dashboard runs it: count the rows of each pool,
      then keep the rows whose pool count is divisible by six. */
  method SanitizeRows(rows: seq<Pick>) returns (r: seq<Pick>)
    ensures r == Sanitized(rows)
    ensures forall q :: PoolSize(r, q) % RosterSize == 0
  {
    var sizes := CountPools(rows);
    var mask := seq(|rows|, j requires 0 <= j < |rows| => sizes[rows[j].pool] % RosterSize == 0);
    r := ApplyMask(rows, mask, InCompletePool(rows));
    SanitizedComplete(rows);
  }

  lemma SanitizedComplete(rows: seq<Pick>)
    ensures forall q :: PoolSize(Sanitized(rows), q) % RosterSize == 0
  {
    forall q
      ensures PoolSize(Sanitized(rows), q) % RosterSize == 0
    {
      SanitizedPoolsComplete(rows, q);
    }
  }
}
