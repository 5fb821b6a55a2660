/**
 * The maximum-parent-credibility summary of a sampled transmission network
 * trace (beast1/MPCTree.py).
 *
 * A trace is a tab-separated file: comment lines starting with '#', one header
 * line ("state", then one "<host>_infector" column per host), then one row per
 * sampled MCMC state (the state number, then each host's parent: another host
 * or "Start").  The file is given here as its rows, already split into cells.
 *
 * getHostList reads the host names from the header; getGuesses counts, for
 * every host, how often each parent was sampled after burn-in; mpcTree scores
 * every retained network by the sum over hosts of ln(count / totalStates) and
 * reports the first network with the highest score.
 */
module MpcTree {
  import Decimal
  import ElementList

  datatype Result<T> = Ok(value: T) | Err(error: string)
  datatype Option<T> = None | Some(value: T)

  type Row = seq<string>

  predicate Distinct(s: seq<string>)
  {
    forall i, j :: 0 <= i < j < |s| ==> s[i] != s[j]
  }

  // ---------------------------------------------------------------------------
  // The header line
  // ---------------------------------------------------------------------------

  /** A row whose first cell starts with '#'. */
  predicate IsComment(row: Row)
  {
    |row| > 0 && |row[0]| > 0 && row[0][0] == '#'
  }

  /**
   * The index of the header: the first row at or after `from` that is not a
   * comment.  Running out of rows is StopIteration; an empty row has no first
   * cell to test (IndexError).
   */
  function HeaderIndex(lines: seq<Row>, from: nat): (r: Result<nat>)
    requires from <= |lines|
    ensures r.Ok? || r == Err("StopIteration") || r == Err("IndexError")
    ensures r.Ok? ==> from <= r.value < |lines| && lines[r.value] != [] && !IsComment(lines[r.value])
    ensures r.Ok? ==> forall j :: from <= j < r.value ==> IsComment(lines[j])
    ensures r == Err("StopIteration") <==> forall j :: from <= j < |lines| ==> IsComment(lines[j])
    ensures r == Err("IndexError") ==>
      exists j :: from <= j < |lines| && |lines[j]| == 0 && forall i :: from <= i < j ==> IsComment(lines[i])
    decreases |lines| - from
  {
    if from == |lines| then Err("StopIteration")
    else if |lines[from]| == 0 then Err("IndexError")
    else if IsComment(lines[from]) then HeaderIndex(lines, from + 1)
    else Ok(from)
  }

  /** The reader loop that skips the comment lines. */
  method SkipComments(lines: seq<Row>) returns (r: Result<nat>)
    ensures r == HeaderIndex(lines, 0)
  {
    var i := 0;
    while i < |lines| && IsComment(lines[i])
      invariant 0 <= i <= |lines|
      invariant HeaderIndex(lines, i) == HeaderIndex(lines, 0)
    {
      i := i + 1;
    }
    if i == |lines| {
      return Err("StopIteration");
    }
    if |lines[i]| == 0 {
      return Err("IndexError");
    }
    return Ok(i);
  }

  /** list.remove(x): drops the first occurrence of x; ValueError when there is none. */
  function RemoveFirst(s: seq<string>, x: string): (r: Result<seq<string>>)
    ensures r.Ok? <==> x in s
    ensures r.Ok? ==> exists k :: 0 <= k < |s| && s[k] == x && x !in s[..k] && r.value == s[..k] + s[k + 1..]
  {
    var k := ElementList.TypeFromString(s, x);
    if k == -1 then Err("ValueError")
    else
      assert x !in s[..k];
      Ok(s[..k] + s[k + 1..])
  }

  predicate HasInfectorSuffix(h: string)
  {
    |h| >= 9 && h[|h| - 9..] == "_infector"
  }

  /** item[:-9] for a header ending in "_infector"; other headers are kept. */
  function StripInfector(h: string): (r: string)
    ensures HasInfectorSuffix(h) ==> r + "_infector" == h
    ensures !HasInfectorSuffix(h) ==> r == h
  {
    if HasInfectorSuffix(h) then h[..|h| - 9] else h
  }

  /** The host names a header line yields. */
  function HostList(header: Row): (r: Result<seq<string>>)
    ensures r.Ok? <==> "state" in header
    ensures r.Ok? ==> |r.value| == |header| - 1
  {
    match RemoveFirst(header, "state")
    case Err(e) => Err(e)
    case Ok(t) => Ok(seq(|t|, i requires 0 <= i < |t| => StripInfector(t[i])))
  }

  /** getHostList: the header with "state" removed, each "_infector" suffix stripped in place. */
  method GetHostList(lines: seq<Row>) returns (r: Result<seq<string>>)
    ensures HeaderIndex(lines, 0).Err? ==> r == Err(HeaderIndex(lines, 0).error)
    ensures HeaderIndex(lines, 0).Ok? ==> r == HostList(lines[HeaderIndex(lines, 0).value])
  {
    var h := SkipComments(lines);
    if h.Err? {
      return Err(h.error);
    }
    var removed := RemoveFirst(lines[h.value], "state");
    if removed.Err? {
      return Err(removed.error);
    }
    var headers := StripSuffixes(removed.value);
    assert headers == seq(|removed.value|, i requires 0 <= i < |removed.value| => StripInfector(removed.value[i]));
    return Ok(headers);
  }

  /** The enumerate loop of getHostList: each "_infector" suffix cut off in place. */
  method StripSuffixes(names: seq<string>) returns (headers: seq<string>)
    ensures |headers| == |names|
    ensures forall i :: 0 <= i < |names| ==> headers[i] == StripInfector(names[i])
  {
    headers := names;
    var index := 0;
    while index < |headers|
      invariant 0 <= index <= |headers| == |names|
      invariant forall i :: 0 <= i < index ==> headers[i] == StripInfector(names[i])
      invariant forall i :: index <= i < |headers| ==> headers[i] == names[i]
    {
      if HasInfectorSuffix(headers[index]) {
        headers := headers[index := headers[index][..|headers[index]| - 9]];
      }
      index := index + 1;
    }
  }

  lemma StripInfectorInverse(name: string)
    ensures StripInfector(name + "_infector") == name
  {
    var h := name + "_infector";
    assert h[|h| - 9..] == "_infector";
    assert h[..|h| - 9] == name;
  }

  /** The header a trace of these hosts carries. */
  function TraceHeader(hosts: seq<string>): (header: Row)
    ensures |header| == |hosts| + 1 && header[0] == "state"
    ensures forall i :: 0 <= i < |hosts| ==> header[i + 1] == hosts[i] + "_infector"
  {
    ["state"] + seq(|hosts|, i requires 0 <= i < |hosts| => hosts[i] + "_infector")
  }

  /** The host list read back from a trace header is the hosts, in column order. */
  lemma HostListRoundTrip(hosts: seq<string>)
    ensures HostList(TraceHeader(hosts)) == Ok(hosts)
  {
    var header := TraceHeader(hosts);
    forall i | 0 <= i < |hosts| ensures StripInfector(header[i + 1]) == hosts[i] {
      StripInfectorInverse(hosts[i]);
    }
    assert header[1..] == header[..0] + header[1..];
    var r := HostList(header);
    assert r.value == hosts;
  }

  // ---------------------------------------------------------------------------
  // Burn-in
  // ---------------------------------------------------------------------------

  /**
   * Whether a data row is kept.  In line mode its 1-based row number is
   * compared with the burn-in; in state mode the integer in its first column is.
   */
  function Retained(burnin: int, inLines: bool, rowNumber: int, row: Row): Result<bool>
  {
    if inLines then Ok(rowNumber >= burnin)
    else if |row| == 0 then Err("IndexError")
    else match Decimal.ParseInt(row[0])
      case Err(e) => Err(e)
      case Ok(state) => Ok(state >= burnin)
  }

  /** In state mode a row whose state column is the decimal text of n is kept iff n >= burnin. */
  lemma RetainedByStateNumber(burnin: int, rowNumber: int, row: Row, n: int)
    requires |row| > 0 && row[0] == Decimal.IntToString(n)
    ensures Retained(burnin, false, rowNumber, row) == Ok(n >= burnin)
  {
    Decimal.ParseIntToString(n);
  }

  /** The data rows kept by the burn-in, among the first t rows. */
  function KeptRows(rows: seq<Row>, burnin: int, inLines: bool, t: nat): (r: Result<seq<Row>>)
    requires t <= |rows|
    ensures r.Ok? ==> |r.value| <= t
    ensures r.Ok? ==> forall row :: row in r.value ==> row in rows[..t]
  {
    if t == 0 then Ok([])
    else match KeptRows(rows, burnin, inLines, t - 1)
      case Err(e) => Err(e)
      case Ok(kept) =>
        match Retained(burnin, inLines, t, rows[t - 1])
        case Err(e) => Err(e)
        case Ok(keep) => Ok(if keep then kept + [rows[t - 1]] else kept)
  }

  /** The index of the first row a line-mode burn-in keeps, among t rows. */
  function FirstKept(burnin: int, t: nat): nat
  {
    if burnin <= 1 then 0 else if burnin - 1 <= t then burnin - 1 else t
  }

  /** In line mode the kept rows are exactly those from row number burnin on, in order. */
  lemma {:induction false} KeptRowsInLineMode(rows: seq<Row>, burnin: int, t: nat)
    requires t <= |rows|
    ensures KeptRows(rows, burnin, true, t) == Ok(rows[FirstKept(burnin, t)..t])
  {
    if t > 0 {
      KeptRowsInLineMode(rows, burnin, t - 1);
      if t >= burnin {
        assert rows[FirstKept(burnin, t - 1)..t - 1] + [rows[t - 1]] == rows[FirstKept(burnin, t)..t];
      } else {
        assert rows[FirstKept(burnin, t - 1)..t - 1] == [] == rows[FirstKept(burnin, t)..t];
      }
    }
  }

  // ---------------------------------------------------------------------------
  // Parent frequency tables (getGuesses)
  // ---------------------------------------------------------------------------

  /** One host's table: its name and a counter per possible parent. */
  datatype Guess = Guess(name: string, counts: map<string, nat>)

  /** The parents that have a counter: every host, and "Start". */
  function Parents(headers: seq<string>): set<string>
  {
    (set h | h in headers) + {"Start"}
  }

  /** The tables before any row is read: one per host, every counter zero. */
  function FreshTables(headers: seq<string>): (data: seq<Guess>)
    ensures |data| == |headers|
    ensures forall k :: 0 <= k < |data| ==> data[k].name == headers[k] && data[k].counts.Keys == Parents(headers)
    ensures forall k, p :: 0 <= k < |data| && p in data[k].counts ==> data[k].counts[p] == 0
  {
    seq(|headers|, k requires 0 <= k < |headers| => Guess(headers[k], map p | p in Parents(headers) :: 0))
  }

  /** The two loops that build the empty tables. */
  method InitGuesses(headers: seq<string>) returns (data: seq<Guess>)
    ensures data == FreshTables(headers)
  {
    data := [];
    var k := 0;
    while k < |headers|
      invariant 0 <= k <= |headers| && |data| == k
      invariant forall j :: 0 <= j < k ==> data[j] == Guess(headers[j], map[])
    {
      data := data + [Guess(headers[k], map[])];
      k := k + 1;
    }
    k := 0;
    while k < |data|
      invariant 0 <= k <= |data| == |headers|
      invariant forall j :: 0 <= j < k ==> data[j] == FreshTables(headers)[j]
      invariant forall j :: k <= j < |data| ==> data[j] == Guess(headers[j], map[])
    {
      var counts := data[k].counts;
      var f := 0;
      while f < |headers|
        invariant 0 <= f <= |headers|
        invariant forall p :: p in counts <==> exists i :: 0 <= i < f && headers[i] == p
        invariant forall p :: p in counts ==> counts[p] == 0
      {
        counts := counts[headers[f] := 0];
        f := f + 1;
      }
      counts := counts["Start" := 0];
      assert counts.Keys == Parents(headers) by {
        forall p | p in Parents(headers) ensures p in counts {
          if p != "Start" {
            var i :| 0 <= i < |headers| && headers[i] == p;
          }
        }
      }
      data := data[k := data[k].(counts := counts)];
      k := k + 1;
    }
  }

  /** A table after its column saw parent p (other tables are unchanged). */
  function Bumped(g: Guess, name: string, p: string): Guess
    requires g.name == name ==> p in g.counts
  {
    if g.name == name then g.(counts := g.counts[p := g.counts[p] + 1]) else g
  }

  /**
   * The error a table raises for a parent p without a counter.  Each table also
   * holds its host's name under the key `name`, so the parent `name` finds that
   * string and the arithmetic on it is a TypeError; any other parent is a KeyError.
   */
  function NoCounter(p: string): string
  {
    if p == "name" then "TypeError" else "KeyError"
  }

  /** Every table named `name` counts one more p; NoCounter(p) when one of them has no counter for p. */
  function BumpAll(data: seq<Guess>, name: string, p: string): Result<seq<Guess>>
  {
    if exists k :: 0 <= k < |data| && data[k].name == name && p !in data[k].counts then Err(NoCounter(p))
    else Ok(seq(|data|, k requires 0 <= k < |data| => Bumped(data[k], name, p)))
  }

  /**
   * With no host called `name`, a column whose parent cell reads `name` makes the
   * tables of its host raise TypeError rather than count.
   */
  lemma ParentNameIsTypeError(data: seq<Guess>, headers: seq<string>, name: string)
    requires "name" !in headers
    requires exists k :: 0 <= k < |data| && data[k].name == name
    requires forall k :: 0 <= k < |data| ==> data[k].counts.Keys == Parents(headers)
    ensures BumpAll(data, name, "name") == Err("TypeError")
  {
    var k :| 0 <= k < |data| && data[k].name == name;
    assert "name" !in data[k].counts;
  }

  /** The number of columns after the state column. */
  function Cols(row: Row): nat
  {
    if |row| == 0 then 0 else |row| - 1
  }

  /**
   * A kept row counted column by column, columns 1..n: column i feeds the tables
   * named headers[i - 1].  A column beyond the headers is an IndexError as
   * soon as some table is tested against it; with no tables it is passed over.
   */
  function AddRow(data: seq<Guess>, headers: seq<string>, row: Row, n: nat): Result<seq<Guess>>
    requires n <= Cols(row)
  {
    if n == 0 then Ok(data)
    else match AddRow(data, headers, row, n - 1)
      case Err(e) => Err(e)
      case Ok(d) =>
        if n - 1 < |headers| then BumpAll(d, headers[n - 1], row[n])
        else if |d| == 0 then Ok(d)
        else Err("IndexError")
  }

  /** The tables after the first t data rows (row numbers 1..t). */
  function Tally(data: seq<Guess>, headers: seq<string>, rows: seq<Row>, burnin: int, inLines: bool, t: nat): Result<seq<Guess>>
    requires t <= |rows|
  {
    if t == 0 then Ok(data)
    else match Tally(data, headers, rows, burnin, inLines, t - 1)
      case Err(e) => Err(e)
      case Ok(d) =>
        match Retained(burnin, inLines, t, rows[t - 1])
        case Err(e) => Err(e)
        case Ok(keep) => if keep then AddRow(d, headers, rows[t - 1], Cols(rows[t - 1])) else Ok(d)
  }

  /** What getGuesses returns for a trace and a host list. */
  function Guesses(lines: seq<Row>, headers: seq<string>, burnin: int, inLines: bool): Result<seq<Guess>>
  {
    match HeaderIndex(lines, 0)
    case Err(e) => Err(e)
    case Ok(h) =>
      if h + 1 == |lines| then Err("StopIteration")
      else Tally(FreshTables(headers), headers, lines[h + 1..], burnin, inLines, |lines| - h - 1)
  }

  /** With no hosts there are no tables, and every column of a row is passed over. */
  lemma {:induction false} AddRowNoHosts(row: Row, n: nat)
    requires n <= Cols(row)
    ensures AddRow([], [], row, n) == Ok([])
  {
    if n > 0 {
      AddRowNoHosts(row, n - 1);
    }
  }

  /**
   * With no hosts getGuesses' reading loop fails only where the burn-in test
   * fails, and otherwise ends with no tables, whatever the rows hold.
   */
  lemma {:induction false} TallyNoHosts(rows: seq<Row>, burnin: int, inLines: bool, t: nat)
    requires t <= |rows|
    ensures Tally([], [], rows, burnin, inLines, t).Ok? <==> KeptRows(rows, burnin, inLines, t).Ok?
    ensures Tally([], [], rows, burnin, inLines, t).Ok? ==> Tally([], [], rows, burnin, inLines, t).value == []
  {
    if t > 0 {
      TallyNoHosts(rows, burnin, inLines, t - 1);
      AddRowNoHosts(rows[t - 1], Cols(rows[t - 1]));
    }
  }

  lemma {:induction false} AddRowErrSticks(data: seq<Guess>, headers: seq<string>, row: Row, n: nat, m: nat)
    requires n <= m <= Cols(row) && AddRow(data, headers, row, n).Err?
    ensures AddRow(data, headers, row, m) == AddRow(data, headers, row, n)
    decreases m
  {
    if m > n {
      AddRowErrSticks(data, headers, row, n, m - 1);
    }
  }

  lemma {:induction false} TallyErrSticks(data: seq<Guess>, headers: seq<string>, rows: seq<Row>, burnin: int, inLines: bool, t: nat, m: nat)
    requires t <= m <= |rows| && Tally(data, headers, rows, burnin, inLines, t).Err?
    ensures Tally(data, headers, rows, burnin, inLines, m) == Tally(data, headers, rows, burnin, inLines, t)
    decreases m
  {
    if m > t {
      TallyErrSticks(data, headers, rows, burnin, inLines, t, m - 1);
    }
  }

  /** The innermost loop: every table with this name counts p once more. */
  method BumpTables(data: seq<Guess>, name: string, p: string) returns (r: Result<seq<Guess>>)
    ensures r == BumpAll(data, name, p)
  {
    var out := data;
    var k := 0;
    while k < |data|
      invariant 0 <= k <= |data| == |out|
      invariant forall j :: 0 <= j < k ==> (data[j].name == name ==> p in data[j].counts)
      invariant forall j :: 0 <= j < k ==> out[j] == Bumped(data[j], name, p)
      invariant forall j :: k <= j < |data| ==> out[j] == data[j]
    {
      if out[k].name == name {
        if p !in out[k].counts {
          return Err(NoCounter(p));
        }
        out := out[k := out[k].(counts := out[k].counts[p := out[k].counts[p] + 1])];
      }
      k := k + 1;
    }
    assert out == seq(|data|, k requires 0 <= k < |data| => Bumped(data[k], name, p));
    return Ok(out);
  }

  /** The column loop for one kept row. */
  method CountRow(data: seq<Guess>, headers: seq<string>, row: Row) returns (r: Result<seq<Guess>>)
    ensures r == AddRow(data, headers, row, Cols(row))
  {
    var d := data;
    var i := 1;
    while i < |row|
      invariant 1 <= i <= |row| || (i == 1 && |row| == 0)
      invariant AddRow(data, headers, row, i - 1) == Ok(d)
    {
      if i - 1 < |headers| {
        var b := BumpTables(d, headers[i - 1], row[i]);
        if b.Err? {
          AddRowErrSticks(data, headers, row, i, Cols(row));
          return Err(b.error);
        }
        d := b.value;
      } else if |d| > 0 {
        AddRowErrSticks(data, headers, row, i, Cols(row));
        return Err("IndexError");
      }
      i := i + 1;
    }
    return Ok(d);
  }

  /** getGuesses: the parent frequency tables of the rows kept after burn-in. */
  method GetGuesses(lines: seq<Row>, headers: seq<string>, burnin: int, inLines: bool) returns (r: Result<seq<Guess>>)
    ensures r == Guesses(lines, headers, burnin, inLines)
  {
    var h := SkipComments(lines);
    match h {
      case Err(e) =>
        r := Err(e);
      case Ok(i) =>
        if i + 1 == |lines| {
          r := Err("StopIteration");
        } else {
          r := TallyAll(headers, lines[i + 1..], burnin, inLines);
        }
    }
  }

  /** getGuesses' reading loop over the rows after the header line. */
  method TallyAll(headers: seq<string>, rows: seq<Row>, burnin: int, inLines: bool) returns (r: Result<seq<Guess>>)
    ensures r == Tally(FreshTables(headers), headers, rows, burnin, inLines, |rows|)
  {
    var data := InitGuesses(headers);
    var totalStates := 0;
    while totalStates < |rows|
      invariant 0 <= totalStates <= |rows|
      invariant Tally(FreshTables(headers), headers, rows, burnin, inLines, totalStates) == Ok(data)
    {
      var next := TallyRow(FreshTables(headers), data, headers, rows, burnin, inLines, totalStates);
      totalStates := totalStates + 1;
      if next.Err? {
        TallyErrSticks(FreshTables(headers), headers, rows, burnin, inLines, totalStates, |rows|);
        return Err(next.error);
      }
      data := next.value;
    }
    return Ok(data);
  }

  /** One pass of getGuesses' reading loop: the row numbered t + 1 is kept
    * or skipped by the burn-in, and a kept row is counted. */
  method TallyRow(initial: seq<Guess>, data: seq<Guess>, headers: seq<string>, rows: seq<Row>, burnin: int, inLines: bool, t: nat)
    returns (r: Result<seq<Guess>>)
    requires t < |rows| && Tally(initial, headers, rows, burnin, inLines, t) == Ok(data)
    ensures r == Tally(initial, headers, rows, burnin, inLines, t + 1)
  {
    var row := rows[t];
    var keep := Retained(burnin, inLines, t + 1, row);
    if keep.Err? {
      return Err(keep.error);
    }
    if !keep.value {
      return Ok(data);
    }
    r := CountRow(data, headers, row);
  }

  // ---------------------------------------------------------------------------
  // What the tables count
  // ---------------------------------------------------------------------------

  /** How many rows of K have parent p in column c. */
  function Occ(K: seq<Row>, c: nat, p: string): (n: nat)
    ensures n <= |K|
  {
    if |K| == 0 then 0
    else Occ(K[..|K| - 1], c, p) + (if c < |K[|K| - 1]| && K[|K| - 1][c] == p then 1 else 0)
  }

  /** How many rows of K have a column c. */
  function Long(K: seq<Row>, c: nat): (n: nat)
    ensures n <= |K|
    ensures (forall row :: row in K ==> c < |row|) ==> n == |K|
  {
    if |K| == 0 then 0
    else
      assert forall row :: row in K[..|K| - 1] ==> row in K;
      Long(K[..|K| - 1], c) + (if c < |K[|K| - 1]| then 1 else 0)
  }

  /** One table per header, in header order, each with a counter for every parent. */
  predicate Named(d: seq<Guess>, headers: seq<string>)
  {
    |d| == |headers| &&
    forall k {:trigger d[k]} :: 0 <= k < |d| ==> d[k].name == headers[k] && d[k].counts.Keys == Parents(headers)
  }

  /** e is d with row's columns 1..n counted: one more for each host's parent in the row, and nothing else. */
  predicate CountedColumns(d: seq<Guess>, e: seq<Guess>, headers: seq<string>, row: Row, n: nat)
    requires n <= Cols(row)
  {
    Named(d, headers) && Named(e, headers) &&
    forall k, p :: 0 <= k < |d| && p in Parents(headers) ==>
      e[k].counts[p] == d[k].counts[p] + (if k < n && row[k + 1] == p then 1 else 0)
  }

  /** With distinct hosts, a counted row adds one to its parent's counter in each host's table and nothing else. */
  lemma {:induction false} AddRowEffect(d: seq<Guess>, headers: seq<string>, row: Row, n: nat)
    requires Distinct(headers) && Named(d, headers) && n <= Cols(row)
    requires AddRow(d, headers, row, n).Ok?
    ensures |headers| > 0 ==> n <= |headers| && forall i :: 1 <= i <= n ==> row[i] in Parents(headers)
    ensures CountedColumns(d, AddRow(d, headers, row, n).value, headers, row, n)
  {
    if n > 0 {
      AddRowEffect(d, headers, row, n - 1);
      if |headers| > 0 {
        AddRowEffectStep(d, AddRow(d, headers, row, n - 1).value, headers, row, n);
      }
    }
  }

  /** The last column of AddRowEffect's induction. */
  lemma AddRowEffectStep(d: seq<Guess>, e: seq<Guess>, headers: seq<string>, row: Row, n: nat)
    requires Distinct(headers) && |headers| > 0 && 0 < n <= Cols(row)
    requires AddRow(d, headers, row, n - 1) == Ok(e) && AddRow(d, headers, row, n).Ok?
    requires n - 1 <= |headers| && forall i :: 1 <= i < n ==> row[i] in Parents(headers)
    requires CountedColumns(d, e, headers, row, n - 1)
    ensures n <= |headers| && row[n] in Parents(headers)
    ensures CountedColumns(d, AddRow(d, headers, row, n).value, headers, row, n)
  {
    assert n - 1 < |headers| by {
      assert |e| == |headers| > 0;
    }
    BumpAllEffect(e, headers, n - 1, row[n]);
    var f := BumpAll(e, headers[n - 1], row[n]).value;
    assert AddRow(d, headers, row, n).value == f;
    forall k, p | 0 <= k < |d| && p in Parents(headers)
      ensures f[k].counts[p] == d[k].counts[p] + (if k < n && row[k + 1] == p then 1 else 0)
    {
      var de := if k < n - 1 && row[k + 1] == p then 1 else 0;
      var ef := if k == n - 1 && row[n] == p then 1 else 0;
      assert e[k].counts[p] == d[k].counts[p] + de;
      assert f[k].counts[p] == e[k].counts[p] + ef;
      assert de + ef == if k < n && row[k + 1] == p then 1 else 0;
    }
  }

  /** With distinct hosts, counting parent p in column j + 1 changes host j's counter for p only. */
  lemma BumpAllEffect(e: seq<Guess>, headers: seq<string>, j: nat, p: string)
    requires Distinct(headers) && Named(e, headers) && j < |headers|
    requires BumpAll(e, headers[j], p).Ok?
    ensures p in Parents(headers)
    ensures Named(BumpAll(e, headers[j], p).value, headers)
    ensures forall k, q :: 0 <= k < |e| && q in Parents(headers) ==>
      BumpAll(e, headers[j], p).value[k].counts[q] == e[k].counts[q] + (if k == j && p == q then 1 else 0)
  {
    assert e[j].name == headers[j];
    forall k | 0 <= k < |e| ensures e[k].name == headers[j] <==> k == j {
    }
  }

  /**
   * A kept row that getGuesses could count: with no hosts any row, otherwise
   * no column beyond the hosts and only parents that have a counter.
   */
  predicate RowCounted(headers: seq<string>, row: Row)
  {
    |headers| > 0 ==> Cols(row) <= |headers| && forall i :: 1 <= i < |row| ==> row[i] in Parents(headers)
  }

  /** The tables d count the kept rows K: host k's counter for p is the number of rows of K whose column k + 1 is p. */
  predicate CountsKept(d: seq<Guess>, headers: seq<string>, K: seq<Row>)
  {
    Named(d, headers) &&
    (forall row :: row in K ==> RowCounted(headers, row)) &&
    forall k, p :: 0 <= k < |headers| && p in Parents(headers) ==> d[k].counts[p] == Occ(K, k + 1, p)
  }

  /** Counting one more kept row keeps the tables in step with the kept rows. */
  lemma CountsKeptStep(d0: seq<Guess>, headers: seq<string>, K0: seq<Row>, row: Row)
    requires Distinct(headers) && CountsKept(d0, headers, K0)
    requires AddRow(d0, headers, row, Cols(row)).Ok?
    ensures CountsKept(AddRow(d0, headers, row, Cols(row)).value, headers, K0 + [row])
  {
    var d := AddRow(d0, headers, row, Cols(row)).value;
    var K := K0 + [row];
    assert Named(d, headers) && RowCounted(headers, row) by {
      AddRowEffect(d0, headers, row, Cols(row));
    }
    assert forall r :: r in K ==> RowCounted(headers, r) by {
      forall r | r in K ensures RowCounted(headers, r) {
        if r != row {
          assert r in K0;
        }
      }
    }
    assert forall k, p :: 0 <= k < |headers| && p in Parents(headers) ==> d[k].counts[p] == Occ(K, k + 1, p) by {
      AddRowEffect(d0, headers, row, Cols(row));
      forall k, p | 0 <= k < |headers| && p in Parents(headers) ensures d[k].counts[p] == Occ(K, k + 1, p) {
        var bump := if k + 1 < |row| && row[k + 1] == p then 1 else 0;
        assert d[k].counts[p] == d0[k].counts[p] + bump;
        assert d0[k].counts[p] == Occ(K0, k + 1, p);
        OccSnoc(K0, row, k + 1, p);
      }
    }
  }

  lemma OccSnoc(K0: seq<Row>, row: Row, c: nat, p: string)
    ensures Occ(K0 + [row], c, p) == Occ(K0, c, p) + (if c < |row| && row[c] == p then 1 else 0)
  {
    var K := K0 + [row];
    assert K[..|K| - 1] == K0;
  }

  /**
   * With distinct hosts, the tables after t rows count the kept rows: host k's
   * counter for p is the number of kept rows whose column k + 1 is p.  Every
   * kept row had no more columns than hosts and only counted parents.
   */
  lemma {:induction false} TallyCounts(init: seq<Guess>, headers: seq<string>, rows: seq<Row>, burnin: int, inLines: bool, t: nat)
    requires Distinct(headers) && t <= |rows|
    requires Named(init, headers) && forall k, p :: 0 <= k < |init| && p in init[k].counts ==> init[k].counts[p] == 0
    requires Tally(init, headers, rows, burnin, inLines, t).Ok?
    ensures KeptRows(rows, burnin, inLines, t).Ok?
    ensures CountsKept(Tally(init, headers, rows, burnin, inLines, t).value, headers, KeptRows(rows, burnin, inLines, t).value)
  {
    if t > 0 {
      TallyCounts(init, headers, rows, burnin, inLines, t - 1);
      var d0 := Tally(init, headers, rows, burnin, inLines, t - 1).value;
      var K0 := KeptRows(rows, burnin, inLines, t - 1).value;
      if Retained(burnin, inLines, t, rows[t - 1]).value {
        CountsKeptStep(d0, headers, K0, rows[t - 1]);
      }
    }
  }

  /** Every parent that has a counter, each listed once. */
  function ParentList(headers: seq<string>): (ps: seq<string>)
    ensures forall p :: p in ps <==> p in Parents(headers)
    ensures Distinct(headers) ==> Distinct(ps)
  {
    if "Start" in headers then headers else headers + ["Start"]
  }

  /** The sum of a table's counters over the listed parents. */
  function SumOver(counts: map<string, nat>, keys: seq<string>): nat
  {
    if |keys| == 0 then 0
    else SumOver(counts, keys[..|keys| - 1]) + (if keys[|keys| - 1] in counts then counts[keys[|keys| - 1]] else 0)
  }

  /** The number of keys equal to v. */
  function CountEq(keys: seq<string>, v: string): nat
  {
    if |keys| == 0 then 0 else CountEq(keys[..|keys| - 1], v) + (if keys[|keys| - 1] == v then 1 else 0)
  }

  lemma {:induction false} CountEqDistinct(keys: seq<string>, v: string)
    requires Distinct(keys)
    ensures CountEq(keys, v) == if v in keys then 1 else 0
  {
    if |keys| > 0 {
      var init := keys[..|keys| - 1];
      CountEqDistinct(init, v);
      assert keys == init + [keys[|keys| - 1]];
    }
  }

  /** Summing the occurrence counts of K over some keys. */
  function SumOcc(K: seq<Row>, c: nat, keys: seq<string>): nat
  {
    if |keys| == 0 then 0 else SumOcc(K, c, keys[..|keys| - 1]) + Occ(K, c, keys[|keys| - 1])
  }

  lemma {:induction false} SumOccSnoc(K: seq<Row>, row: Row, c: nat, keys: seq<string>)
    requires |K| > 0 && K[|K| - 1] == row
    ensures SumOcc(K, c, keys) == SumOcc(K[..|K| - 1], c, keys) + (if c < |row| then CountEq(keys, row[c]) else 0)
  {
    if |keys| > 0 {
      SumOccSnoc(K, row, c, keys[..|keys| - 1]);
    }
  }

  /** With distinct keys covering every value in column c, the occurrences add up to the rows that have a column c. */
  lemma {:induction false} OccSum(K: seq<Row>, c: nat, keys: seq<string>)
    requires Distinct(keys)
    requires forall row :: row in K && c < |row| ==> row[c] in keys
    ensures SumOcc(K, c, keys) == Long(K, c)
  {
    if |K| > 0 {
      var row := K[|K| - 1];
      assert row in K;
      assert forall r :: r in K[..|K| - 1] ==> r in K;
      OccSum(K[..|K| - 1], c, keys);
      SumOccSnoc(K, row, c, keys);
      if c < |row| {
        CountEqDistinct(keys, row[c]);
      }
    } else {
      SumOccNil(K, c, keys);
    }
  }

  lemma {:induction false} SumOccNil(K: seq<Row>, c: nat, keys: seq<string>)
    requires |K| == 0
    ensures SumOcc(K, c, keys) == 0
  {
    if |keys| > 0 {
      SumOccNil(K, c, keys[..|keys| - 1]);
    }
  }

  lemma {:induction false} SumOverOcc(counts: map<string, nat>, K: seq<Row>, c: nat, keys: seq<string>)
    requires forall p :: p in keys ==> p in counts && counts[p] == Occ(K, c, p)
    ensures SumOver(counts, keys) == SumOcc(K, c, keys)
  {
    if |keys| > 0 {
      SumOverOcc(counts, K, c, keys[..|keys| - 1]);
    }
  }

  /**
   * With distinct hosts, each host's counters add up to the number of kept rows
   * that have a column for that host; when every kept row has all its columns,
   * that is the number of kept rows.
   */
  lemma GuessesSumToKept(headers: seq<string>, rows: seq<Row>, burnin: int, inLines: bool, k: nat)
    requires Distinct(headers) && 0 <= k < |headers|
    requires Tally(FreshTables(headers), headers, rows, burnin, inLines, |rows|).Ok?
    ensures KeptRows(rows, burnin, inLines, |rows|).Ok?
    ensures var d := Tally(FreshTables(headers), headers, rows, burnin, inLines, |rows|).value;
      |d| == |headers| && SumOver(d[k].counts, ParentList(headers)) == Long(KeptRows(rows, burnin, inLines, |rows|).value, k + 1)
  {
    TallyCounts(FreshTables(headers), headers, rows, burnin, inLines, |rows|);
    var d := Tally(FreshTables(headers), headers, rows, burnin, inLines, |rows|).value;
    CountsSumToLong(d, headers, KeptRows(rows, burnin, inLines, |rows|).value, k);
  }

  /** Tables that count the kept rows K hold, per host, as many counts as K has rows long enough for that host's column. */
  lemma CountsSumToLong(d: seq<Guess>, headers: seq<string>, K: seq<Row>, k: nat)
    requires Distinct(headers) && 0 <= k < |headers| && CountsKept(d, headers, K)
    ensures |d| == |headers| && SumOver(d[k].counts, ParentList(headers)) == Long(K, k + 1)
  {
    var keys := ParentList(headers);
    assert SumOver(d[k].counts, keys) == SumOcc(K, k + 1, keys) by {
      SumOverOcc(d[k].counts, K, k + 1, keys);
    }
    assert SumOcc(K, k + 1, keys) == Long(K, k + 1) by {
      forall row | row in K && k + 1 < |row| ensures row[k + 1] in keys {
        assert RowCounted(headers, row);
      }
      OccSum(K, k + 1, keys);
    }
  }

  // ---------------------------------------------------------------------------
  // Networks, scores and the most credible network (mpcTree)
  // ---------------------------------------------------------------------------

  /**
   * The dictionary a kept row becomes: column i's value under farms[i], for the
   * first n columns, a later column overwriting an earlier one of the same name.
   */
  function NetworkOf(farms: seq<string>, row: Row, n: nat): (net: map<string, string>)
    requires n <= |farms| && n <= |row|
    ensures forall f :: f in net <==> f in farms[..n]
  {
    if n == 0 then map[]
    else
      assert farms[..n] == farms[..n - 1] + [farms[n - 1]];
      NetworkOf(farms, row, n - 1)[farms[n - 1] := row[n - 1]]
  }

  /** With distinct column names, each name maps to its own column's value. */
  lemma {:induction false} NetworkOfDistinct(farms: seq<string>, row: Row, n: nat, i: nat)
    requires Distinct(farms) && n <= |farms| && n <= |row| && i < n
    ensures NetworkOf(farms, row, n)[farms[i]] == row[i]
  {
    if i < n - 1 {
      NetworkOfDistinct(farms, row, n - 1, i);
      assert farms[i] != farms[n - 1];
    }
  }

  /** Every column name is a key of the network. */
  predicate Complete(net: map<string, string>, farms: seq<string>)
  {
    forall i :: 0 <= i < |farms| ==> farms[i] in net
  }

  /** The loop that fills one state's dictionary; a row shorter than the columns is an IndexError. */
  method ReadNetwork(farms: seq<string>, row: Row) returns (r: Result<map<string, string>>)
    ensures |row| < |farms| ==> r == Err("IndexError")
    ensures |farms| <= |row| ==> r == Ok(NetworkOf(farms, row, |farms|))
  {
    var net: map<string, string> := map[];
    for i := 0 to |farms|
      invariant i <= |row| && net == NetworkOf(farms, row, i)
    {
      if i >= |row| {
        return Err("IndexError");
      }
      net := net[farms[i] := row[i]];
    }
    return Ok(net);
  }

  /** The networks of the kept rows among the first t (mpcTree's stateData). */
  function Networks(farms: seq<string>, rows: seq<Row>, burnin: int, inLines: bool, t: nat): (r: Result<seq<map<string, string>>>)
    requires t <= |rows|
    ensures r.Ok? ==> forall j :: 0 <= j < |r.value| ==> Complete(r.value[j], farms)
  {
    if t == 0 then Ok([])
    else match Networks(farms, rows, burnin, inLines, t - 1)
      case Err(e) => Err(e)
      case Ok(nets) =>
        match Retained(burnin, inLines, t, rows[t - 1])
        case Err(e) => Err(e)
        case Ok(keep) =>
          if !keep then Ok(nets)
          else if |rows[t - 1]| < |farms| then Err("IndexError")
          else
            var net := NetworkOf(farms, rows[t - 1], |farms|);
            assert Complete(net, farms) by {
              forall i | 0 <= i < |farms| ensures farms[i] in net {
                assert farms[..|farms|][i] == farms[i];
              }
            }
            Ok(nets + [net])
  }

  /**
   * mpcTree keeps the same rows as getGuesses: its networks are those of the
   * kept rows, in order, and each kept row has a cell for every column.
   */
  lemma {:induction false} NetworksAreKept(farms: seq<string>, rows: seq<Row>, burnin: int, inLines: bool, t: nat)
    requires t <= |rows| && Networks(farms, rows, burnin, inLines, t).Ok?
    ensures KeptRows(rows, burnin, inLines, t).Ok?
    ensures NetworksOfRows(farms, Networks(farms, rows, burnin, inLines, t).value, KeptRows(rows, burnin, inLines, t).value)
  {
    if t > 0 {
      assert Networks(farms, rows, burnin, inLines, t - 1).Ok? by {
        NetworksStep(farms, rows, burnin, inLines, t);
      }
      NetworksAreKept(farms, rows, burnin, inLines, t - 1);
      NetworksKeptStep(farms, rows, burnin, inLines, t);
    } else {
      assert Networks(farms, rows, burnin, inLines, t) == Ok([]);
      assert KeptRows(rows, burnin, inLines, t) == Ok([]);
    }
  }

  /** The inductive step of NetworksAreKept: reading the row numbered t keeps the two in step. */
  lemma NetworksKeptStep(farms: seq<string>, rows: seq<Row>, burnin: int, inLines: bool, t: nat)
    requires 0 < t <= |rows| && Networks(farms, rows, burnin, inLines, t).Ok?
    requires Networks(farms, rows, burnin, inLines, t - 1).Ok? && KeptRows(rows, burnin, inLines, t - 1).Ok?
    requires NetworksOfRows(farms, Networks(farms, rows, burnin, inLines, t - 1).value, KeptRows(rows, burnin, inLines, t - 1).value)
    ensures KeptRows(rows, burnin, inLines, t).Ok?
    ensures NetworksOfRows(farms, Networks(farms, rows, burnin, inLines, t).value, KeptRows(rows, burnin, inLines, t).value)
  {
    NetworksStep(farms, rows, burnin, inLines, t);
    KeptRowsStep(rows, burnin, inLines, t);
    NetworksOfRowsStep(farms, Networks(farms, rows, burnin, inLines, t - 1).value, KeptRows(rows, burnin, inLines, t - 1).value,
      Retained(burnin, inLines, t, rows[t - 1]).value, rows[t - 1],
      Networks(farms, rows, burnin, inLines, t).value, KeptRows(rows, burnin, inLines, t).value);
  }

  /** One step of Networks: the row numbered t is read, and either skipped or turned into a network. */
  lemma NetworksStep(farms: seq<string>, rows: seq<Row>, burnin: int, inLines: bool, t: nat)
    requires 0 < t <= |rows| && Networks(farms, rows, burnin, inLines, t).Ok?
    ensures Networks(farms, rows, burnin, inLines, t - 1).Ok? && Retained(burnin, inLines, t, rows[t - 1]).Ok?
    ensures Retained(burnin, inLines, t, rows[t - 1]).value ==>
      |farms| <= |rows[t - 1]| &&
      Networks(farms, rows, burnin, inLines, t).value ==
        Networks(farms, rows, burnin, inLines, t - 1).value + [NetworkOf(farms, rows[t - 1], |farms|)]
    ensures !Retained(burnin, inLines, t, rows[t - 1]).value ==>
      Networks(farms, rows, burnin, inLines, t).value == Networks(farms, rows, burnin, inLines, t - 1).value
  {
  }

  /** One step of KeptRows, when the first t - 1 rows and the row numbered t are read without error. */
  lemma KeptRowsStep(rows: seq<Row>, burnin: int, inLines: bool, t: nat)
    requires 0 < t <= |rows| && KeptRows(rows, burnin, inLines, t - 1).Ok? && Retained(burnin, inLines, t, rows[t - 1]).Ok?
    ensures KeptRows(rows, burnin, inLines, t).Ok?
    ensures KeptRows(rows, burnin, inLines, t).value ==
      if Retained(burnin, inLines, t, rows[t - 1]).value
      then KeptRows(rows, burnin, inLines, t - 1).value + [rows[t - 1]]
      else KeptRows(rows, burnin, inLines, t - 1).value
  {
  }

  /**
   * nets are the networks of the rows kept, one each, in order: the last network
   * is built from the last kept row, which has a cell for every column.
   */
  predicate NetworksOfRows(farms: seq<string>, nets: seq<map<string, string>>, kept: seq<Row>)
    decreases |kept|
  {
    if |kept| == 0 then |nets| == 0
    else
      |nets| == |kept| && |farms| <= |kept[|kept| - 1]| &&
      nets[|nets| - 1] == NetworkOf(farms, kept[|kept| - 1], |farms|) &&
      NetworksOfRows(farms, nets[..|nets| - 1], kept[..|kept| - 1])
  }

  lemma NetworksOfRowsStep(farms: seq<string>, nets: seq<map<string, string>>, kept: seq<Row>, keep: bool, row: Row,
                           nets': seq<map<string, string>>, kept': seq<Row>)
    requires NetworksOfRows(farms, nets, kept)
    requires keep ==> |farms| <= |row| && nets' == nets + [NetworkOf(farms, row, |farms|)] && kept' == kept + [row]
    requires !keep ==> nets' == nets && kept' == kept
    ensures NetworksOfRows(farms, nets', kept')
  {
    if keep {
      assert nets'[..|nets'| - 1] == nets && kept'[..|kept'| - 1] == kept;
    }
  }

  lemma {:induction false} NetworksErrSticks(farms: seq<string>, rows: seq<Row>, burnin: int, inLines: bool, t: nat, m: nat)
    requires t <= m <= |rows| && Networks(farms, rows, burnin, inLines, t).Err?
    ensures Networks(farms, rows, burnin, inLines, m) == Networks(farms, rows, burnin, inLines, t)
    decreases m
  {
    if m > t {
      NetworksErrSticks(farms, rows, burnin, inLines, t, m - 1);
    }
  }

  /**
   * One host's log parent credibility after the first n tables: ln(count of
   * its parent / totalStates) from the last table named after the host, 0 when
   * none is.  A parent without a counter is a KeyError (a TypeError for the
   * parent `name`, which finds the table's name string) and ln of 0 a ValueError.
   */
  function Term(data: seq<Guess>, farm: string, parent: string, total: real, ln: real -> real, n: nat): (r: Result<real>)
    requires n <= |data| && total > 0.0
    ensures r.Err? ==> r.error == NoCounter(parent) || r.error == "ValueError"
    ensures (forall k :: 0 <= k < n ==> data[k].name != farm) ==> r == Ok(0.0)
  {
    if n == 0 then Ok(0.0)
    else match Term(data, farm, parent, total, ln, n - 1)
      case Err(e) => Err(e)
      case Ok(v) =>
        if data[n - 1].name != farm then Ok(v)
        else if parent !in data[n - 1].counts then Err(NoCounter(parent))
        else if data[n - 1].counts[parent] == 0 then Err("ValueError")
        else Ok(ln(data[n - 1].counts[parent] as real / total))
  }

  /** A network's total log parent credibility over the hosts farms[1..i]. */
  function Score(net: map<string, string>, farms: seq<string>, data: seq<Guess>, total: real, ln: real -> real, i: nat): (r: Result<real>)
    requires Complete(net, farms) && i <= |farms| && total > 0.0
    ensures r.Err? ==> r.error == "KeyError" || r.error == "TypeError" || r.error == "ValueError"
  {
    if i <= 1 then Ok(0.0)
    else match Score(net, farms, data, total, ln, i - 1)
      case Err(e) => Err(e)
      case Ok(s) =>
        match Term(data, farms[i - 1], net[farms[i - 1]], total, ln, |data|)
        case Err(e) => Err(e)
        case Ok(v) => Ok(s + v)
  }

  /** Scoring fails with a TypeError only when some host's parent is `name`. */
  lemma {:induction false} ScoreTypeError(net: map<string, string>, farms: seq<string>, data: seq<Guess>, total: real, ln: real -> real, i: nat)
    requires Complete(net, farms) && i <= |farms| && total > 0.0
    requires Score(net, farms, data, total, ln, i) == Err("TypeError")
    ensures exists j :: 1 <= j < i && net[farms[j]] == "name"
  {
    if i > 1 {
      if Score(net, farms, data, total, ln, i - 1) == Err("TypeError") {
        ScoreTypeError(net, farms, data, total, ln, i - 1);
      } else {
        assert NoCounter(net[farms[i - 1]]) == "TypeError";
      }
    }
  }

  /** A network scores only when every host's term is defined. */
  lemma {:induction false} ScoreTermsDefined(net: map<string, string>, farms: seq<string>, data: seq<Guess>, total: real, ln: real -> real, i: nat)
    requires Complete(net, farms) && i <= |farms| && total > 0.0
    requires Score(net, farms, data, total, ln, i).Ok?
    ensures forall j :: 1 <= j < i ==> Term(data, farms[j], net[farms[j]], total, ln, |data|).Ok?
  {
    if i > 1 {
      ScoreTermsDefined(net, farms, data, total, ln, i - 1);
    }
  }

  lemma {:induction false} TermErrSticks(data: seq<Guess>, farm: string, parent: string, total: real, ln: real -> real, n: nat, m: nat)
    requires n <= m <= |data| && total > 0.0 && Term(data, farm, parent, total, ln, n).Err?
    ensures Term(data, farm, parent, total, ln, m) == Term(data, farm, parent, total, ln, n)
    decreases m
  {
    if m > n {
      TermErrSticks(data, farm, parent, total, ln, n, m - 1);
    }
  }

  lemma {:induction false} ScoreErrSticks(net: map<string, string>, farms: seq<string>, data: seq<Guess>, total: real, ln: real -> real, i: nat, m: nat)
    requires Complete(net, farms) && i <= m <= |farms| && total > 0.0
    requires Score(net, farms, data, total, ln, i).Err?
    ensures Score(net, farms, data, total, ln, m) == Score(net, farms, data, total, ln, i)
    decreases m
  {
    if m > i {
      ScoreErrSticks(net, farms, data, total, ln, i, m - 1);
    }
  }

  /** The loop over the hosts that scores one network. */
  method ScoreNetwork(net: map<string, string>, farms: seq<string>, data: seq<Guess>, total: real, ln: real -> real) returns (r: Result<real>)
    requires Complete(net, farms) && |farms| > 0 && total > 0.0
    ensures r == Score(net, farms, data, total, ln, |farms|)
  {
    var tlpc := 0.0;
    var i := 1;
    while i < |farms|
      invariant 1 <= i <= |farms|
      invariant Score(net, farms, data, total, ln, i) == Ok(tlpc)
    {
      var lpc := HostTerm(data, farms[i], net[farms[i]], total, ln);
      if lpc.Err? {
        ScoreErrSticks(net, farms, data, total, ln, i + 1, |farms|);
        return Err(lpc.error);
      }
      tlpc := tlpc + lpc.value;
      i := i + 1;
    }
    return Ok(tlpc);
  }

  /** The innermost scoring loop: the log credibility of one host's parent, from the last table named after it. */
  method HostTerm(data: seq<Guess>, farm: string, parent: string, total: real, ln: real -> real) returns (r: Result<real>)
    requires total > 0.0
    ensures r == Term(data, farm, parent, total, ln, |data|)
  {
    var lpc := 0.0;
    var j := 0;
    while j < |data|
      invariant 0 <= j <= |data|
      invariant Term(data, farm, parent, total, ln, j) == Ok(lpc)
    {
      if data[j].name == farm {
        if parent !in data[j].counts || data[j].counts[parent] == 0 {
          TermErrSticks(data, farm, parent, total, ln, j + 1, |data|);
          return Term(data, farm, parent, total, ln, j + 1);
        }
        lpc := ln(data[j].counts[parent] as real / total);
      }
      j := j + 1;
    }
    return Ok(lpc);
  }

  /** The scores of the first n networks. */
  function ScoresOf(nets: seq<map<string, string>>, farms: seq<string>, data: seq<Guess>, total: real, ln: real -> real, n: nat): (r: Result<seq<real>>)
    requires n <= |nets| && total > 0.0
    requires forall j :: 0 <= j < |nets| ==> Complete(nets[j], farms)
    ensures r.Ok? ==> |r.value| == n
    ensures r.Ok? ==> forall j :: 0 <= j < n ==> Score(nets[j], farms, data, total, ln, |farms|) == Ok(r.value[j])
  {
    if n == 0 then Ok([])
    else match ScoresOf(nets, farms, data, total, ln, n - 1)
      case Err(e) => Err(e)
      case Ok(scores) =>
        match Score(nets[n - 1], farms, data, total, ln, |farms|)
        case Err(e) => Err(e)
        case Ok(s) => Ok(scores + [s])
  }

  lemma {:induction false} ScoresErrSticks(nets: seq<map<string, string>>, farms: seq<string>, data: seq<Guess>, total: real, ln: real -> real, n: nat, m: nat)
    requires n <= m <= |nets| && total > 0.0
    requires forall j :: 0 <= j < |nets| ==> Complete(nets[j], farms)
    requires ScoresOf(nets, farms, data, total, ln, n).Err?
    ensures ScoresOf(nets, farms, data, total, ln, m) == ScoresOf(nets, farms, data, total, ln, n)
    decreases m
  {
    if m > n {
      ScoresErrSticks(nets, farms, data, total, ln, n, m - 1);
    }
  }

  /**
   * The running maximum over the first n scores: a later score replaces the
   * best only when strictly greater, so the result is the first maximum.
   */
  function FirstMax(scores: seq<real>, n: nat): (best: Option<nat>)
    requires n <= |scores|
    ensures best.None? <==> n == 0
    ensures best.Some? ==> best.value < n
    ensures best.Some? ==> forall j :: 0 <= j < n ==> scores[j] <= scores[best.value]
    ensures best.Some? ==> forall j :: 0 <= j < best.value ==> scores[j] < scores[best.value]
  {
    if n == 0 then None
    else match FirstMax(scores, n - 1)
      case None => Some(n - 1)
      case Some(b) => if scores[n - 1] > scores[b] then Some(n - 1) else Some(b)
  }

  /** The loop that keeps the network with the highest score seen so far (None stands for -infinity). */
  method SelectBest(scores: seq<real>) returns (best: Option<nat>)
    ensures best == FirstMax(scores, |scores|)
  {
    best := None;
    var highest := 0.0;
    for n := 0 to |scores|
      invariant best == FirstMax(scores, n)
      invariant best.Some? ==> highest == scores[best.value]
    {
      if best.None? || scores[n] > highest {
        highest := scores[n];
        best := Some(n);
      }
    }
  }

  /** The parent the network gives each host, in host order. */
  function ParentsOf(net: map<string, string>, farms: seq<string>): (parents: seq<string>)
    requires Complete(net, farms) && |farms| > 0
    ensures |parents| == |farms| - 1
  {
    seq(|farms| - 1, i requires 0 <= i < |farms| - 1 => net[farms[i + 1]])
  }

  /**
   * The key under which mpcTree stores each network's score, in the same
   * dictionary as the network's parents.
   */
  const ScoreKey := "TLPC"

  /**
   * count / totalStates for the network's parent, from every table named after
   * the host (first n tables).  For a host named ScoreKey the network's cell
   * holds the score by now, a number that no table has as a key.
   */
  function HostCreds(data: seq<Guess>, farm: string, parent: string, total: real, n: nat): (r: Result<seq<real>>)
    requires n <= |data| && total > 0.0
  {
    if n == 0 then Ok([])
    else match HostCreds(data, farm, parent, total, n - 1)
      case Err(e) => Err(e)
      case Ok(cs) =>
        if data[n - 1].name != farm then Ok(cs)
        else if farm == ScoreKey then Err("KeyError")
        else if parent !in data[n - 1].counts then Err(NoCounter(parent))
        else Ok(cs + [data[n - 1].counts[parent] as real / total])
  }

  /** The credibility cells for the hosts farms[1..i]. */
  function Creds(net: map<string, string>, farms: seq<string>, data: seq<Guess>, total: real, i: nat): Result<seq<real>>
    requires Complete(net, farms) && i <= |farms| && total > 0.0
  {
    if i <= 1 then Ok([])
    else match Creds(net, farms, data, total, i - 1)
      case Err(e) => Err(e)
      case Ok(cs) =>
        match HostCreds(data, farms[i - 1], net[farms[i - 1]], total, |data|)
        case Err(e) => Err(e)
        case Ok(hc) => Ok(cs + hc)
  }

  lemma {:induction false} HostCredsErrSticks(data: seq<Guess>, farm: string, parent: string, total: real, n: nat, m: nat)
    requires n <= m <= |data| && total > 0.0 && HostCreds(data, farm, parent, total, n).Err?
    ensures HostCreds(data, farm, parent, total, m) == HostCreds(data, farm, parent, total, n)
    decreases m
  {
    if m > n {
      HostCredsErrSticks(data, farm, parent, total, n, m - 1);
    }
  }

  lemma {:induction false} CredsErrSticks(net: map<string, string>, farms: seq<string>, data: seq<Guess>, total: real, i: nat, m: nat)
    requires Complete(net, farms) && i <= m <= |farms| && total > 0.0
    requires Creds(net, farms, data, total, i).Err?
    ensures Creds(net, farms, data, total, m) == Creds(net, farms, data, total, i)
    decreases m
  {
    if m > i {
      CredsErrSticks(net, farms, data, total, i, m - 1);
    }
  }

  /** The host named ScoreKey has credibility cells only while no table carries its name. */
  lemma {:induction false} ScoreKeyCreds(data: seq<Guess>, parent: string, total: real, n: nat)
    requires n <= |data| && total > 0.0
    ensures HostCreds(data, ScoreKey, parent, total, n).Ok? <==> forall j :: 0 <= j < n ==> data[j].name != ScoreKey
    ensures HostCreds(data, ScoreKey, parent, total, n).Ok? ==> HostCreds(data, ScoreKey, parent, total, n).value == []
  {
    if n > 0 {
      ScoreKeyCreds(data, parent, total, n - 1);
      if HostCreds(data, ScoreKey, parent, total, n - 1).Err? {
        assert !(forall j :: 0 <= j < n - 1 ==> data[j].name != ScoreKey);
      }
    }
  }

  /**
   * A host named ScoreKey makes the summary fail as soon as some table carries
   * that name: its parent cell is the score by then, and no table counts it.
   */
  lemma ScoreKeyHostFails(nets: seq<map<string, string>>, hosts: seq<string>, data: seq<Guess>, total: real, ln: real -> real)
    requires total > 0.0
    requires forall j :: 0 <= j < |nets| ==> Complete(nets[j], ["state"] + hosts)
    requires ScoreKey in hosts && exists j :: 0 <= j < |data| && data[j].name == ScoreKey
    ensures Summarize(nets, hosts, data, total, ln).Err?
  {
    var farms := ["state"] + hosts;
    var scores := ScoresOf(nets, farms, data, total, ln, |nets|);
    if scores.Ok? && FirstMax(scores.value, |scores.value|).Some? {
      var b := FirstMax(scores.value, |scores.value|).value;
      var k :| 0 <= k < |hosts| && hosts[k] == ScoreKey;
      var i := k + 1;
      assert farms[i] == ScoreKey;
      ScoreKeyCreds(data, nets[b][ScoreKey], total, |data|);
      assert Creds(nets[b], farms, data, total, i + 1).Err?;
      CredsErrSticks(nets[b], farms, data, total, i + 1, |farms|);
    }
  }

  /** The two loops that collect the chosen network's credibility cells. */
  method Credibilities(net: map<string, string>, farms: seq<string>, data: seq<Guess>, total: real) returns (r: Result<seq<real>>)
    requires Complete(net, farms) && |farms| > 0 && total > 0.0
    ensures r == Creds(net, farms, data, total, |farms|)
  {
    var line: seq<real> := [];
    var i := 1;
    while i < |farms|
      invariant 1 <= i <= |farms|
      invariant Creds(net, farms, data, total, i) == Ok(line)
    {
      ghost var before := line;
      var j := 0;
      while j < |data|
        invariant 0 <= j <= |data|
        invariant HostCreds(data, farms[i], net[farms[i]], total, j).Ok?
        invariant line == before + HostCreds(data, farms[i], net[farms[i]], total, j).value
      {
        if data[j].name == farms[i] {
          if farms[i] == ScoreKey {
            HostCredsErrSticks(data, farms[i], net[farms[i]], total, j + 1, |data|);
            CredsErrSticks(net, farms, data, total, i + 1, |farms|);
            return Err("KeyError");
          }
          if net[farms[i]] !in data[j].counts {
            HostCredsErrSticks(data, farms[i], net[farms[i]], total, j + 1, |data|);
            CredsErrSticks(net, farms, data, total, i + 1, |farms|);
            return Err(NoCounter(net[farms[i]]));
          }
          line := line + [data[j].counts[net[farms[i]]] as real / total];
        }
        j := j + 1;
      }
      i := i + 1;
    }
    return Ok(line);
  }

  /** What mpcTree writes: the chosen network's index among the kept ones, its parents and their credibilities. */
  datatype Summary = Summary(best: Option<nat>, parents: seq<string>, credibility: seq<real>)

  /** The summary mpcTree produces for a trace, the tables and the hosts. */
  function Mpc(lines: seq<Row>, data: seq<Guess>, burnin: int, hosts: seq<string>, inLines: bool, ln: real -> real): Result<Summary>
  {
    match HeaderIndex(lines, 0)
    case Err(e) => Err(e)
    case Ok(h) =>
      if h + 1 == |lines| then Err("StopIteration")
      else SummaryOf(lines[h + 1..], data, burnin, hosts, inLines, ln)
  }

  /** The summary of the rows after the header line, with totalStates the number of those rows. */
  function SummaryOf(rows: seq<Row>, data: seq<Guess>, burnin: int, hosts: seq<string>, inLines: bool, ln: real -> real): Result<Summary>
    requires |rows| > 0
  {
    match Networks(["state"] + hosts, rows, burnin, inLines, |rows|)
    case Err(e) => Err(e)
    case Ok(nets) => Summarize(nets, hosts, data, |rows| as real, ln)
  }

  /** The summary of the kept networks, with columns "state" and then the hosts. */
  function Summarize(nets: seq<map<string, string>>, hosts: seq<string>, data: seq<Guess>, total: real, ln: real -> real): Result<Summary>
    requires total > 0.0
    requires forall j :: 0 <= j < |nets| ==> Complete(nets[j], ["state"] + hosts)
  {
    var farms := ["state"] + hosts;
    match ScoresOf(nets, farms, data, total, ln, |nets|)
    case Err(e) => Err(e)
    case Ok(scores) =>
      match FirstMax(scores, |scores|)
      case None => if |hosts| == 0 then Ok(Summary(None, [], [])) else Err("TypeError")
      case Some(b) =>
        match Creds(nets[b], farms, data, total, |farms|)
        case Err(e) => Err(e)
        case Ok(cs) =>
          if |cs| < |hosts| then Err("IndexError")
          else Ok(Summary(Some(b), ParentsOf(nets[b], farms), cs[..|hosts|]))
  }

  /** The reader loop of mpcTree: one network per kept row. */
  method ReadStates(farms: seq<string>, rows: seq<Row>, burnin: int, inLines: bool) returns (r: Result<seq<map<string, string>>>)
    ensures r == Networks(farms, rows, burnin, inLines, |rows|)
  {
    var stateData: seq<map<string, string>> := [];
    var totalStates := 0;
    while totalStates < |rows|
      invariant 0 <= totalStates <= |rows|
      invariant Networks(farms, rows, burnin, inLines, totalStates) == Ok(stateData)
    {
      var next := ReadRow(farms, stateData, rows, burnin, inLines, totalStates);
      totalStates := totalStates + 1;
      if next.Err? {
        NetworksErrSticks(farms, rows, burnin, inLines, totalStates, |rows|);
        return Err(next.error);
      }
      stateData := next.value;
    }
    return Ok(stateData);
  }

  /** One pass of the reader loop: the row numbered t + 1 is kept or
    * skipped by the burn-in, and a kept row adds its network. */
  method ReadRow(farms: seq<string>, nets: seq<map<string, string>>, rows: seq<Row>, burnin: int, inLines: bool, t: nat)
    returns (r: Result<seq<map<string, string>>>)
    requires t < |rows| && Networks(farms, rows, burnin, inLines, t) == Ok(nets)
    ensures r == Networks(farms, rows, burnin, inLines, t + 1)
  {
    var row := rows[t];
    var keep := Retained(burnin, inLines, t + 1, row);
    if keep.Err? {
      return Err(keep.error);
    }
    if !keep.value {
      return Ok(nets);
    }
    var net := ReadNetwork(farms, row);
    if net.Err? {
      return Err(net.error);
    }
    return Ok(nets + [net.value]);
  }

  /** The scoring loop of mpcTree. */
  method ScoreStates(nets: seq<map<string, string>>, farms: seq<string>, data: seq<Guess>, total: real, ln: real -> real)
    returns (r: Result<seq<real>>)
    requires |farms| > 0 && total > 0.0
    requires forall j :: 0 <= j < |nets| ==> Complete(nets[j], farms)
    ensures r == ScoresOf(nets, farms, data, total, ln, |nets|)
  {
    var scores: seq<real> := [];
    for n := 0 to |nets|
      invariant ScoresOf(nets, farms, data, total, ln, n) == Ok(scores)
    {
      var s := ScoreNetwork(nets[n], farms, data, total, ln);
      if s.Err? {
        ScoresErrSticks(nets, farms, data, total, ln, n + 1, |nets|);
        return Err(s.error);
      }
      scores := scores + [s.value];
    }
    return Ok(scores);
  }

  /** mpcTree: read the kept networks, score them, keep the first best one and collect its credibilities. */
  method MpcTreeSummary(lines: seq<Row>, data: seq<Guess>, burnin: int, hosts: seq<string>, inLines: bool, ln: real -> real)
    returns (r: Result<Summary>)
    ensures r == Mpc(lines, data, burnin, hosts, inLines, ln)
  {
    var h := SkipComments(lines);
    if h.Err? {
      return Err(h.error);
    }
    if h.value + 1 == |lines| {
      return Err("StopIteration");
    }
    var rows := lines[h.value + 1..];
    var farms := ["state"] + hosts;
    var states := ReadStates(farms, rows, burnin, inLines);
    if states.Err? {
      return Err(states.error);
    }
    r := SummarizeStates(states.value, hosts, data, |rows| as real, ln);
  }

  /** The part of mpcTree after reading: score, select, and collect the output cells. */
  method SummarizeStates(stateData: seq<map<string, string>>, hosts: seq<string>, data: seq<Guess>, total: real, ln: real -> real)
    returns (r: Result<Summary>)
    requires total > 0.0
    requires forall j :: 0 <= j < |stateData| ==> Complete(stateData[j], ["state"] + hosts)
    ensures r == Summarize(stateData, hosts, data, total, ln)
  {
    var farms := ["state"] + hosts;
    var scored := ScoreStates(stateData, farms, data, total, ln);
    if scored.Err? {
      return Err(scored.error);
    }
    var scores := scored.value;
    var best := SelectBest(scores);
    if best.None? {
      if |hosts| == 0 {
        return Ok(Summary(None, [], []));
      }
      return Err("TypeError");
    }
    var network := stateData[best.value];
    var parents: seq<string> := [];
    for i := 1 to |farms|
      invariant parents == ParentsOf(network, farms)[..i - 1]
    {
      parents := parents + [network[farms[i]]];
    }
    assert parents == ParentsOf(network, farms);
    var creds := Credibilities(network, farms, data, total);
    if creds.Err? {
      return Err(creds.error);
    }
    if |creds.value| < |hosts| {
      return Err("IndexError");
    }
    return Ok(Summary(best, parents, creds.value[..|hosts|]));
  }

  // ---------------------------------------------------------------------------
  // What the summary means
  // ---------------------------------------------------------------------------

  function Mul(x: real, y: real): real { x * y }

  /** ln is a logarithm: it turns products of positive reals into sums and is strictly increasing. */
  ghost predicate IsLog(ln: real -> real)
  {
    (forall x, y {:trigger ln(Mul(x, y))} :: 0.0 < x && 0.0 < y ==> ln(Mul(x, y)) == ln(x) + ln(y)) &&
    (forall x, y :: 0.0 < x < y ==> ln(x) < ln(y))
  }

  lemma LnOne(ln: real -> real)
    requires IsLog(ln)
    ensures ln(1.0) == 0.0
  {
    assert ln(Mul(1.0, 1.0)) == ln(1.0) + ln(1.0);
  }

  /** The sum of ln(c / total) over the counts. */
  function SumLn(cs: seq<real>, total: real, ln: real -> real): real
    requires total > 0.0
  {
    if |cs| == 0 then 0.0 else SumLn(cs[..|cs| - 1], total, ln) + ln(cs[|cs| - 1] / total)
  }

  function Prod(cs: seq<real>): real
  {
    if |cs| == 0 then 1.0 else Mul(Prod(cs[..|cs| - 1]), cs[|cs| - 1])
  }

  /** n * x, as a sum. */
  function Times(n: nat, x: real): real
  {
    if n == 0 then 0.0 else Times(n - 1, x) + x
  }

  predicate AllPositive(cs: seq<real>)
  {
    forall k :: 0 <= k < |cs| ==> cs[k] > 0.0
  }

  lemma {:induction false} ProdPositive(cs: seq<real>)
    requires AllPositive(cs)
    ensures Prod(cs) > 0.0
  {
    if |cs| > 0 {
      ProdPositive(cs[..|cs| - 1]);
    }
  }

  /** Summing the logs of the ratios is the log of the product, less |cs| ln(total). */
  lemma {:induction false} LogOfProduct(cs: seq<real>, total: real, ln: real -> real)
    requires IsLog(ln) && total > 0.0 && AllPositive(cs)
    ensures SumLn(cs, total, ln) == ln(Prod(cs)) - Times(|cs|, ln(total))
  {
    if |cs| == 0 {
      LnOne(ln);
    } else {
      var init := cs[..|cs| - 1];
      var c := cs[|cs| - 1];
      LogOfProduct(init, total, ln);
      ProdPositive(init);
      assert ln(Prod(cs)) == ln(Prod(init)) + ln(c);
      LnRatio(c, total, ln);
      assert SumLn(cs, total, ln) == SumLn(init, total, ln) + ln(c / total);
    }
  }

  lemma LnRatio(c: real, total: real, ln: real -> real)
    requires IsLog(ln) && c > 0.0 && total > 0.0
    ensures ln(c / total) == ln(c) - ln(total)
  {
    assert Mul(c / total, total) == c;
    assert ln(Mul(c / total, total)) == ln(c / total) + ln(total);
  }

  /** Score order is product order: for equally many positive counts, a smaller sum of logs means a smaller product. */
  lemma ScoreOrderIsProductOrder(a: seq<real>, b: seq<real>, total: real, ln: real -> real)
    requires IsLog(ln) && total > 0.0 && AllPositive(a) && AllPositive(b) && |a| == |b|
    ensures SumLn(a, total, ln) < SumLn(b, total, ln) <==> Prod(a) < Prod(b)
  {
    LogOfProduct(a, total, ln);
    LogOfProduct(b, total, ln);
    ProdPositive(a);
    ProdPositive(b);
    assert SumLn(a, total, ln) - SumLn(b, total, ln) == ln(Prod(a)) - ln(Prod(b));
    if Prod(a) < Prod(b) {
      assert ln(Prod(a)) < ln(Prod(b));
    } else if Prod(b) < Prod(a) {
      assert ln(Prod(b)) < ln(Prod(a));
    }
  }

  lemma DivSelf(t: real)
    requires t > 0.0
    ensures t / t == 1.0
  {
  }

  /** The count behind a host's term: the last table named after it among the first n, totalStates when none is. */
  function LastCount(data: seq<Guess>, farm: string, parent: string, total: real, n: nat): real
    requires n <= |data|
  {
    if n == 0 then total
    else if data[n - 1].name == farm then (if parent in data[n - 1].counts then data[n - 1].counts[parent] as real else 0.0)
    else LastCount(data, farm, parent, total, n - 1)
  }

  /** A host's term is ln(count / totalStates) of a positive count: the count of the last table named after the host, or totalStates when there is none. */
  lemma {:induction false} TermValue(data: seq<Guess>, farm: string, parent: string, total: real, ln: real -> real, n: nat)
    requires n <= |data| && total > 0.0 && IsLog(ln)
    requires Term(data, farm, parent, total, ln, n).Ok?
    ensures LastCount(data, farm, parent, total, n) > 0.0
    ensures Term(data, farm, parent, total, ln, n).value == ln(LastCount(data, farm, parent, total, n) / total)
  {
    if n == 0 {
      LnOne(ln);
      DivSelf(total);
    } else {
      TermValue(data, farm, parent, total, ln, n - 1);
    }
  }

  /** The counts behind a network's terms, for the hosts farms[1..i]. */
  function HostCounts(net: map<string, string>, farms: seq<string>, data: seq<Guess>, total: real, i: nat): (cs: seq<real>)
    requires Complete(net, farms) && i <= |farms|
    ensures |cs| == if i <= 1 then 0 else i - 1
  {
    if i <= 1 then []
    else HostCounts(net, farms, data, total, i - 1) + [LastCount(data, farms[i - 1], net[farms[i - 1]], total, |data|)]
  }

  /** A network's score is the sum of ln(count / totalStates) over its hosts' positive counts. */
  lemma {:induction false} ScoreIsSumLn(net: map<string, string>, farms: seq<string>, data: seq<Guess>, total: real, ln: real -> real, i: nat)
    requires Complete(net, farms) && i <= |farms| && total > 0.0 && IsLog(ln)
    requires Score(net, farms, data, total, ln, i).Ok?
    ensures AllPositive(HostCounts(net, farms, data, total, i))
    ensures Score(net, farms, data, total, ln, i).value == SumLn(HostCounts(net, farms, data, total, i), total, ln)
  {
    if i > 1 {
      var prev := HostCounts(net, farms, data, total, i - 1);
      var c := LastCount(data, farms[i - 1], net[farms[i - 1]], total, |data|);
      var term := Term(data, farms[i - 1], net[farms[i - 1]], total, ln, |data|);
      assert Score(net, farms, data, total, ln, i - 1).Ok? && term.Ok? &&
        Score(net, farms, data, total, ln, i).value == Score(net, farms, data, total, ln, i - 1).value + term.value by {
        ScoreStep(net, farms, data, total, ln, i);
      }
      assert AllPositive(prev) && Score(net, farms, data, total, ln, i - 1).value == SumLn(prev, total, ln) by {
        ScoreIsSumLn(net, farms, data, total, ln, i - 1);
      }
      assert c > 0.0 && term.value == ln(c / total) by {
        TermValue(data, farms[i - 1], net[farms[i - 1]], total, ln, |data|);
      }
      assert HostCounts(net, farms, data, total, i) == prev + [c];
      SumLnSnoc(prev, c, total, ln);
    } else {
      assert HostCounts(net, farms, data, total, i) == [];
      assert Score(net, farms, data, total, ln, i) == Ok(0.0);
    }
  }

  /** A scoring network's score over farms[1..i] adds host i - 1's term to the score over farms[1..i - 1]. */
  lemma ScoreStep(net: map<string, string>, farms: seq<string>, data: seq<Guess>, total: real, ln: real -> real, i: nat)
    requires Complete(net, farms) && 1 < i <= |farms| && total > 0.0
    requires Score(net, farms, data, total, ln, i).Ok?
    ensures Score(net, farms, data, total, ln, i - 1).Ok?
    ensures Term(data, farms[i - 1], net[farms[i - 1]], total, ln, |data|).Ok?
    ensures Score(net, farms, data, total, ln, i).value ==
      Score(net, farms, data, total, ln, i - 1).value + Term(data, farms[i - 1], net[farms[i - 1]], total, ln, |data|).value
  {
  }

  /** One more positive count: still all positive, and one more ln term. */
  lemma SumLnSnoc(cs: seq<real>, c: real, total: real, ln: real -> real)
    requires total > 0.0 && AllPositive(cs) && c > 0.0
    ensures AllPositive(cs + [c])
    ensures SumLn(cs + [c], total, ln) == SumLn(cs, total, ln) + ln(c / total)
  {
    assert (cs + [c])[..|cs|] == cs;
  }

  /** A network's joint parent credibility, up to the factor totalStates^hosts shared by all networks. */
  ghost function Credibility(net: map<string, string>, farms: seq<string>, data: seq<Guess>, total: real): real
    requires Complete(net, farms)
  {
    Prod(HostCounts(net, farms, data, total, |farms|))
  }

  /**
   * The selected network has the highest joint parent credibility of all scored
   * networks, and every network before it has a strictly lower one: it is the
   * first most credible network.
   */
  lemma MostCredible(nets: seq<map<string, string>>, farms: seq<string>, data: seq<Guess>, total: real, ln: real -> real)
    requires total > 0.0 && IsLog(ln)
    requires forall j :: 0 <= j < |nets| ==> Complete(nets[j], farms)
    requires ScoresOf(nets, farms, data, total, ln, |nets|).Ok?
    ensures var scores := ScoresOf(nets, farms, data, total, ln, |nets|).value;
      FirstMax(scores, |scores|).Some? ==>
        var b := FirstMax(scores, |scores|).value;
        b < |nets| &&
        (forall j :: 0 <= j < |nets| ==> Credibility(nets[j], farms, data, total) <= Credibility(nets[b], farms, data, total)) &&
        (forall j :: 0 <= j < b ==> Credibility(nets[j], farms, data, total) < Credibility(nets[b], farms, data, total))
  {
    var scores := ScoresOf(nets, farms, data, total, ln, |nets|).value;
    if FirstMax(scores, |scores|).Some? {
      var b := FirstMax(scores, |scores|).value;
      ScoreIsSumLn(nets[b], farms, data, total, ln, |farms|);
      forall j | 0 <= j < |nets|
        ensures Credibility(nets[j], farms, data, total) <= Credibility(nets[b], farms, data, total)
        ensures j < b ==> Credibility(nets[j], farms, data, total) < Credibility(nets[b], farms, data, total)
      {
        ScoreIsSumLn(nets[j], farms, data, total, ln, |farms|);
        ScoreOrderIsProductOrder(HostCounts(nets[b], farms, data, total, |farms|), HostCounts(nets[j], farms, data, total, |farms|), total, ln);
        ScoreOrderIsProductOrder(HostCounts(nets[j], farms, data, total, |farms|), HostCounts(nets[b], farms, data, total, |farms|), total, ln);
      }
    }
  }

  /** With hosts to report and no kept row, mpcTree fails (the best network is still None). */
  lemma NoKeptRowsFails(lines: seq<Row>, data: seq<Guess>, burnin: int, hosts: seq<string>, inLines: bool, ln: real -> real, h: nat)
    requires |hosts| > 0
    requires HeaderIndex(lines, 0).Ok? && HeaderIndex(lines, 0).value == h && h + 1 < |lines|
    requires KeptRows(lines[h + 1..], burnin, inLines, |lines| - h - 1) == Ok([])
    ensures Mpc(lines, data, burnin, hosts, inLines, ln).Err?
  {
    NoKeptRowsSummary(hosts, lines, data, burnin, inLines, ln, h);
    MpcPastHeader(lines, data, burnin, hosts, inLines, ln, lines[h + 1..]);
  }

  /** Past the header line, mpcTree is the summary of the rows after it. */
  lemma MpcPastHeader(lines: seq<Row>, data: seq<Guess>, burnin: int, hosts: seq<string>, inLines: bool, ln: real -> real, rows: seq<Row>)
    requires HeaderIndex(lines, 0).Ok? && rows == lines[HeaderIndex(lines, 0).value + 1..] && |rows| > 0
    ensures Mpc(lines, data, burnin, hosts, inLines, ln) == SummaryOf(rows, data, burnin, hosts, inLines, ln)
  {
  }

  /** Over the rows after the header line: no kept row leaves no network to summarize. */
  lemma NoKeptRowsSummary(hosts: seq<string>, lines: seq<Row>, data: seq<Guess>, burnin: int, inLines: bool, ln: real -> real, h: nat)
    requires |hosts| > 0 && h + 1 < |lines|
    requires KeptRows(lines[h + 1..], burnin, inLines, |lines| - h - 1) == Ok([])
    ensures SummaryOf(lines[h + 1..], data, burnin, hosts, inLines, ln).Err?
  {
    NoNetworks(["state"] + hosts, lines[h + 1..], burnin, inLines, |lines| - h - 1);
    NoNetworkFails(hosts, data, (|lines| - h - 1) as real, ln);
  }

  /** No kept row, no network. */
  lemma NoNetworks(farms: seq<string>, rows: seq<Row>, burnin: int, inLines: bool, t: nat)
    requires t == |rows| && KeptRows(rows, burnin, inLines, t) == Ok([])
    ensures Networks(farms, rows, burnin, inLines, t).Ok? ==> Networks(farms, rows, burnin, inLines, t).value == []
  {
    if Networks(farms, rows, burnin, inLines, t).Ok? {
      NetworksAreKept(farms, rows, burnin, inLines, t);
    }
  }

  /** Without a network there is no best one, so a non-empty host list cannot be reported. */
  lemma NoNetworkFails(hosts: seq<string>, data: seq<Guess>, total: real, ln: real -> real)
    requires |hosts| > 0 && total > 0.0
    ensures Summarize([], hosts, data, total, ln) == Err("TypeError")
  {
  }

  /** Every table's counters are at most t after t rows: each counts kept rows only. */
  lemma TablesBounded(headers: seq<string>, rows: seq<Row>, burnin: int, inLines: bool)
    requires Distinct(headers)
    requires Tally(FreshTables(headers), headers, rows, burnin, inLines, |rows|).Ok?
    ensures var d := Tally(FreshTables(headers), headers, rows, burnin, inLines, |rows|).value;
      forall j, p :: 0 <= j < |d| && p in d[j].counts ==> d[j].counts[p] <= |rows|
  {
    TallyCounts(FreshTables(headers), headers, rows, burnin, inLines, |rows|);
  }

  /** Each credibility cell of one host is count / total for some table named after it. */
  lemma {:induction false} HostCredsCells(data: seq<Guess>, farm: string, parent: string, total: real, n: nat)
    requires n <= |data| && total > 0.0 && HostCreds(data, farm, parent, total, n).Ok?
    ensures forall c :: c in HostCreds(data, farm, parent, total, n).value ==>
      exists j :: 0 <= j < n && data[j].name == farm && parent in data[j].counts && c == data[j].counts[parent] as real / total
  {
    if n > 0 {
      HostCredsCells(data, farm, parent, total, n - 1);
    }
  }

  /** With counters at most total and every host's term defined, every credibility cell lies in (0, 1]. */
  lemma {:induction false} CredsInRange(net: map<string, string>, farms: seq<string>, data: seq<Guess>, total: real, ln: real -> real, i: nat)
    requires Complete(net, farms) && i <= |farms| && total > 0.0
    requires forall j, p :: 0 <= j < |data| && p in data[j].counts ==> data[j].counts[p] as real <= total
    requires Score(net, farms, data, total, ln, i).Ok? && Creds(net, farms, data, total, i).Ok?
    ensures forall c :: c in Creds(net, farms, data, total, i).value ==> 0.0 < c <= 1.0
  {
    if i > 1 {
      var farm := farms[i - 1];
      var parent := net[farm];
      CredsInRange(net, farms, data, total, ln, i - 1);
      HostCredsInRange(data, farm, parent, total, ln);
      var cs := Creds(net, farms, data, total, i - 1).value;
      var hc := HostCreds(data, farm, parent, total, |data|).value;
      assert forall c :: c in cs + hc ==> c in cs || c in hc;
    }
  }

  /** With counters at most total and the host's term defined, each of its credibility cells lies in (0, 1]. */
  lemma HostCredsInRange(data: seq<Guess>, farm: string, parent: string, total: real, ln: real -> real)
    requires total > 0.0
    requires forall j, p :: 0 <= j < |data| && p in data[j].counts ==> data[j].counts[p] as real <= total
    requires Term(data, farm, parent, total, ln, |data|).Ok? && HostCreds(data, farm, parent, total, |data|).Ok?
    ensures forall c :: c in HostCreds(data, farm, parent, total, |data|).value ==> 0.0 < c <= 1.0
  {
    TermPositive(data, farm, parent, total, ln, |data|);
    HostCredsCells(data, farm, parent, total, |data|);
    forall c | c in HostCreds(data, farm, parent, total, |data|).value
      ensures 0.0 < c <= 1.0
    {
      var j :| 0 <= j < |data| && data[j].name == farm && parent in data[j].counts && c == data[j].counts[parent] as real / total;
      FractionInRange(data[j].counts[parent], total);
    }
  }

  /** A positive count of at most total, divided by total, lies in (0, 1]. */
  lemma FractionInRange(a: int, total: real)
    requires 0 < a && a as real <= total
    ensures 0.0 < a as real / total <= 1.0
  {
  }

  /** A defined term has a positive counter for the parent in every table named after the host. */
  lemma {:induction false} TermPositive(data: seq<Guess>, farm: string, parent: string, total: real, ln: real -> real, n: nat)
    requires n <= |data| && total > 0.0 && Term(data, farm, parent, total, ln, n).Ok?
    ensures forall j :: 0 <= j < n && data[j].name == farm ==> parent in data[j].counts && data[j].counts[parent] > 0
  {
    if n > 0 {
      TermPositive(data, farm, parent, total, ln, n - 1);
    }
  }

  lemma {:induction false} ScoreOkBelow(net: map<string, string>, farms: seq<string>, data: seq<Guess>, total: real, ln: real -> real, i: nat, m: nat)
    requires Complete(net, farms) && i <= m <= |farms| && total > 0.0
    requires Score(net, farms, data, total, ln, m).Ok?
    ensures Score(net, farms, data, total, ln, i).Ok?
  {
    if Score(net, farms, data, total, ln, i).Err? {
      ScoreErrSticks(net, farms, data, total, ln, i, m);
    }
  }

  /**
   * When the tables are getGuesses' own for the same trace, burn-in and
   * (distinct) hosts, every credibility mpcTree reports lies in (0, 1].
   */
  lemma CredibilityInRange(lines: seq<Row>, hosts: seq<string>, burnin: int, inLines: bool, ln: real -> real)
    requires Distinct(hosts)
    requires Guesses(lines, hosts, burnin, inLines).Ok?
    requires Mpc(lines, Guesses(lines, hosts, burnin, inLines).value, burnin, hosts, inLines, ln).Ok?
    ensures forall c :: c in Mpc(lines, Guesses(lines, hosts, burnin, inLines).value, burnin, hosts, inLines, ln).value.credibility ==>
      0.0 < c <= 1.0
  {
    var data := Guesses(lines, hosts, burnin, inLines).value;
    GuessesRows(lines, hosts, burnin, inLines);
    MpcRows(lines, data, burnin, hosts, inLines, ln);
    var h := HeaderIndex(lines, 0).value;
    var rows := lines[h + 1..];
    var total := |rows| as real;
    assert forall j, p :: 0 <= j < |data| && p in data[j].counts ==> data[j].counts[p] as real <= total by {
      TablesBounded(hosts, rows, burnin, inLines);
    }
    var nets := Networks(["state"] + hosts, rows, burnin, inLines, |rows|).value;
    SummaryInRange(nets, hosts, data, total, ln);
  }

  /** A successful getGuesses is the tally of every row after the header line. */
  lemma GuessesRows(lines: seq<Row>, hosts: seq<string>, burnin: int, inLines: bool)
    requires Guesses(lines, hosts, burnin, inLines).Ok?
    ensures HeaderIndex(lines, 0).Ok? && HeaderIndex(lines, 0).value + 1 < |lines|
    ensures var rows := lines[HeaderIndex(lines, 0).value + 1..];
      Guesses(lines, hosts, burnin, inLines) == Tally(FreshTables(hosts), hosts, rows, burnin, inLines, |rows|)
  {
  }

  /** A successful mpcTree summarizes the networks of every row after the header line. */
  lemma MpcRows(lines: seq<Row>, data: seq<Guess>, burnin: int, hosts: seq<string>, inLines: bool, ln: real -> real)
    requires Mpc(lines, data, burnin, hosts, inLines, ln).Ok?
    ensures HeaderIndex(lines, 0).Ok? && HeaderIndex(lines, 0).value + 1 < |lines|
    ensures var rows := lines[HeaderIndex(lines, 0).value + 1..];
      var nets := Networks(["state"] + hosts, rows, burnin, inLines, |rows|);
      nets.Ok? && Mpc(lines, data, burnin, hosts, inLines, ln) == Summarize(nets.value, hosts, data, |rows| as real, ln)
  {
  }

  /** Every credibility in a summary is in (0, 1] when no counter exceeds the total. */
  lemma SummaryInRange(nets: seq<map<string, string>>, hosts: seq<string>, data: seq<Guess>, total: real, ln: real -> real)
    requires total > 0.0
    requires forall j :: 0 <= j < |nets| ==> Complete(nets[j], ["state"] + hosts)
    requires forall j, p :: 0 <= j < |data| && p in data[j].counts ==> data[j].counts[p] as real <= total
    requires Summarize(nets, hosts, data, total, ln).Ok?
    ensures forall c :: c in Summarize(nets, hosts, data, total, ln).value.credibility ==> 0.0 < c <= 1.0
  {
    var farms := ["state"] + hosts;
    var scores := ScoresOf(nets, farms, data, total, ln, |nets|).value;
    var b := FirstMax(scores, |scores|);
    if b.Some? {
      ScoreOkBelow(nets[b.value], farms, data, total, ln, |farms|, |farms|);
      CredsInRange(nets[b.value], farms, data, total, ln, |farms|);
      var cs := Creds(nets[b.value], farms, data, total, |farms|).value;
      assert forall c :: c in cs[..|hosts|] ==> c in cs;
    }
  }
}
