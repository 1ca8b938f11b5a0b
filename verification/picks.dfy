/** The data model: one row of the exported draft table, the derived player name,
    the text normalisation the player search applies, and the error outcomes. */
module Picks {
  import opened Seqs

  /** One pick: a row of the uploaded CSV. The pick timestamp is not part of the
      model (it only feeds the time-of-day chart). Entry fees are whole amounts. */
  datatype Pick = Pick(
    firstName: string,
    lastName: string,
    pool: string,       // Draft Pool
    entry: string,      // Draft Entry
    title: string,      // Draft Pool Title
    fee: int,           // Draft Pool Entry Fee
    pickNumber: int,    // Pick Number
    position: string,   // Position
    team: string        // Team
  )

  /** Why processing stops. `InvalidPositionData` is the message shown when the
      positions match no supported sport; `MissingIndex` is the exception raised
      when a classifier reads a team count that does not exist; `UnknownPosition`
      is the exception raised when a position has no slot in the count table;
      `NoCommonDraft` is the warning for a player search no draft satisfies;
      `NoDraftsLeft` is the exception raised when the average first pick is
      rounded on a table with no drafts left, where the mean is a plain float
      NaN without a `round` method. */
  datatype Error = InvalidPositionData | MissingIndex | UnknownPosition | NoCommonDraft | NoDraftsLeft

  datatype Result<T> = Ok(value: T) | Err(error: Error)

  /** The "Player" column: first name, one space, last name (no trimming). */
  function PlayerName(p: Pick): (r: string)
    ensures |r| == |p.firstName| + 1 + |p.lastName|
    ensures r[..|p.firstName|] == p.firstName && r[|p.firstName|] == ' '
    ensures r[|p.firstName| + 1..] == p.lastName
  {
    p.firstName + " " + p.lastName
  }

  /** The characters Python's `str.isspace` accepts. */
  predicate IsSpace(c: char)
  {
    || c == ' ' || ('\t' <= c <= '\r') || ('\U{1C}' <= c <= '\U{1F}')
    || c == '\U{85}' || c == '\U{A0}' || c == '\U{1680}'
    || ('\U{2000}' <= c <= '\U{200A}') || c == '\U{2028}' || c == '\U{2029}'
    || c == '\U{202F}' || c == '\U{205F}' || c == '\U{3000}'
  }

  /** `s` without its leading whitespace. */
  function TrimStart(s: string): string
  {
    if |s| > 0 && IsSpace(s[0]) then TrimStart(s[1..]) else s
  }

  /** `TrimStart` removes a whitespace prefix, and exactly the longest one. */
  lemma {:induction false} TrimStartSpec(s: string)
    ensures |TrimStart(s)| <= |s| && TrimStart(s) == s[|s| - |TrimStart(s)|..]
    ensures |TrimStart(s)| > 0 ==> !IsSpace(TrimStart(s)[0])
    ensures forall i :: 0 <= i < |s| - |TrimStart(s)| ==> IsSpace(s[i])
  {
    if |s| > 0 && IsSpace(s[0]) {
      var t := TrimStart(s[1..]);
      TrimStartSpec(s[1..]);
      assert TrimStart(s) == t;
      assert s[1..][|s| - 1 - |t|..] == s[|s| - |t|..];
      forall i | 0 <= i < |s| - |t| ensures IsSpace(s[i]) {
        if i > 0 {
          assert s[i] == s[1..][i - 1];
        }
      }
    }
  }

  /** `s` without its trailing whitespace. */
  function TrimEnd(s: string): string
  {
    if |s| > 0 && IsSpace(s[|s| - 1]) then TrimEnd(s[..|s| - 1]) else s
  }

  /** `TrimEnd` removes a whitespace suffix, and exactly the longest one. */
  lemma {:induction false} TrimEndSpec(s: string)
    ensures |TrimEnd(s)| <= |s| && TrimEnd(s) == s[..|TrimEnd(s)|]
    ensures |TrimEnd(s)| > 0 ==> !IsSpace(TrimEnd(s)[|TrimEnd(s)| - 1])
    ensures forall i :: |TrimEnd(s)| <= i < |s| ==> IsSpace(s[i])
  {
    if |s| > 0 && IsSpace(s[|s| - 1]) {
      var t := TrimEnd(s[..|s| - 1]);
      TrimEndSpec(s[..|s| - 1]);
      assert TrimEnd(s) == t;
      assert s[..|s| - 1][..|t|] == s[..|t|];
      forall i | |t| <= i < |s| ensures IsSpace(s[i]) {
        if i < |s| - 1 {
          assert s[i] == s[..|s| - 1][i];
        }
      }
    }
  }

  /** `r` is the part of `s` starting at `a`, and everything of `s` around it is whitespace. */
  ghost predicate StrippedAt(s: string, r: string, a: int)
  {
    && 0 <= a && a + |r| <= |s| && r == s[a..a + |r|]
    && (forall i :: 0 <= i < a ==> IsSpace(s[i]))
    && (forall i :: a + |r| <= i < |s| ==> IsSpace(s[i]))
  }

  /** Python's `str.strip()`. */
  function Strip(s: string): string
  {
    TrimEnd(TrimStart(s))
  }

  /** The stripped string is the longest middle part of `s` with no whitespace at
      either end, obtained by removing only whitespace. */
  lemma StripSpec(s: string)
    ensures exists a :: StrippedAt(s, Strip(s), a)
    ensures |Strip(s)| > 0 ==> !IsSpace(Strip(s)[0]) && !IsSpace(Strip(s)[|Strip(s)| - 1])
  {
    var t := TrimStart(s);
    var r := TrimEnd(t);
    TrimStartSpec(s);
    TrimEndSpec(t);
    var a := |s| - |t|;
    assert r == s[a..a + |r|];
    assert forall i :: a + |r| <= i < |s| ==> s[i] == t[i - a];
    assert Strip(s) == r;
    assert StrippedAt(s, Strip(s), a);
  }

  /** A string with no whitespace at either end is its own stripped form. */
  lemma StripTrimmed(s: string)
    requires |s| > 0 ==> !IsSpace(s[0]) && !IsSpace(s[|s| - 1])
    ensures Strip(s) == s
  {
    assert TrimStart(s) == s;
    assert TrimEnd(s) == s;
  }

  /** A player name whose first name does not start, and whose last name does not
      end, with whitespace is its own stripped form: the search compares it as is. */
  lemma PlayerNameIsStripped(p: Pick)
    requires |p.firstName| > 0 && !IsSpace(p.firstName[0])
    requires |p.lastName| > 0 && !IsSpace(p.lastName[|p.lastName| - 1])
    ensures Strip(PlayerName(p)) == PlayerName(p)
  {
    var r := PlayerName(p);
    assert r[0] == p.firstName[0];
    assert r[|r| - 1] == p.lastName[|p.lastName| - 1];
    StripTrimmed(r);
  }

  /** Stripping is idempotent: a stripped name is its own normal form. */
  lemma StripIdempotent(s: string)
    ensures Strip(Strip(s)) == Strip(s)
  {
    StripSpec(s);
    StripTrimmed(Strip(s));
  }

  /** The categorical columns the dashboard filters on. */
  datatype Column = TitleColumn | PositionColumn | TeamColumn | EntryColumn

  function Cell(p: Pick, c: Column): string
  {
    match c
    case TitleColumn => p.title
    case PositionColumn => p.position
    case TeamColumn => p.team
    case EntryColumn => p.entry
  }

  /** The column `c` of every row, in row order. */
  function ColumnValues(rows: seq<Pick>, c: Column): (r: seq<string>)
    ensures |r| == |rows|
    ensures forall i :: 0 <= i < |rows| ==> r[i] == Cell(rows[i], c)
  {
    seq(|rows|, i requires 0 <= i < |rows| => Cell(rows[i], c))
  }

  /** Row mask "column `c` equals `v`". */
  function CellIs(c: Column, v: string): Pick -> bool
  {
    (p: Pick) => Cell(p, c) == v
  }

  /** Row mask "belongs to draft entry `e`". */
  function EntryIs(e: string): Pick -> bool
  {
    (p: Pick) => p.entry == e
  }

  /** Row mask "belongs to draft pool `q`". */
  function PoolIs(q: string): Pick -> bool
  {
    (p: Pick) => p.pool == q
  }

  /** The distinct draft entries present in `rows`. */
  function Entries(rows: seq<Pick>): set<string>
  {
    set p | p in rows :: p.entry
  }

  /** The distinct position codes present in `rows` (`df['Position'].unique()`). */
  function PositionSet(rows: seq<Pick>): set<string>
  {
    set p | p in rows :: p.position
  }

  /** The rows of draft entry `e`, in row order (one group of `groupby('Draft Entry')`). */
  function EntryRows(rows: seq<Pick>, e: string): (r: seq<Pick>)
    ensures forall p :: p in r <==> p in rows && p.entry == e
    ensures e in Entries(rows) <==> |r| > 0
  {
    var r := Filter(rows, EntryIs(e));
    assert e in Entries(rows) ==> |r| > 0 by {
      if e in Entries(rows) {
        var p :| p in rows && p.entry == e;
        assert EntryIs(e)(p);
        assert p in r;
      }
    }
    assert |r| > 0 ==> e in Entries(rows) by {
      if |r| > 0 {
        assert r[0] in r;
        assert r[0] in rows && r[0].entry == e;
      }
    }
    r
  }
}
