/** The shared part of the parser module: the table headers, the colouring
    helper, the filter/sort engine `sort_parsed_data`, and the line-mode
    presenter that joins each row with a separator. */
module Parsers {
  import opened Wrappers
  import opened Strings
  import opened Sorting

  const StateCodeStopped: int := 80
  const StateCodeRunning: int := 16
  const DbStateRunning: string := "available"
  /** The placeholder for a missing tag, address or identifier. */
  const NoneStr: string := "<None>"

  const InstancesHeaders: seq<string> := ["Name", "State", "State Time", "Public IP", "Env", "Id"]
  const DbInstancesHeaders: seq<string> := ["Name", "State", "Address", "Port"]

  /** The colour codes of the terminal library, taken as given strings. */
  datatype Palette = Palette(green: string, red: string, reset: string)

  /** make_it_shine: the text between a colour code and the reset code. */
  function MakeItShine(color: string, text: string, pal: Palette): (r: string)
    ensures |r| == |color| + |text| + |pal.reset|
    ensures IsPrefix(color, r)
    ensures r[|color|..|color| + |text|] == text
    ensures r[|color| + |text|..] == pal.reset
  {
    color + text + pal.reset
  }

  /** Neither colour code is a prefix of the other, so a label shows which one it carries. */
  predicate Distinguishable(pal: Palette) {
    !IsPrefix(pal.green, pal.red) && !IsPrefix(pal.red, pal.green)
  }

  /** Two prefixes of one string: the shorter is a prefix of the longer. */
  lemma PrefixesOfOneString(a: string, b: string, s: string)
    requires IsPrefix(a, s) && IsPrefix(b, s)
    ensures IsPrefix(a, b) || IsPrefix(b, a)
  {
    if |a| <= |b| {
      assert b[..|a|] == s[..|a|];
    } else {
      assert a[..|b|] == s[..|b|];
    }
  }

  /** A label shone green starts with the green code and not the red one, and the
      other way round; so the colour of a label tells which branch chose it. */
  lemma ShineShowsColour(on: bool, text: string, pal: Palette)
    requires Distinguishable(pal)
    ensures var shown := MakeItShine(if on then pal.green else pal.red, text, pal);
      (IsPrefix(pal.green, shown) <==> on) && (IsPrefix(pal.red, shown) <==> !on)
  {
    var shown := MakeItShine(if on then pal.green else pal.red, text, pal);
    if IsPrefix(pal.green, shown) && IsPrefix(pal.red, shown) {
      PrefixesOfOneString(pal.green, pal.red, shown);
    }
  }

  /** The number of columns of the EC2 table, or of the RDS table. */
  function Width(rds: bool): nat {
    if rds then 4 else 6
  }

  /** The header of the table `sort_parsed_data` works on. */
  function Headers(rds: bool): (h: seq<string>)
    ensures |h| == Width(rds)
  {
    if rds then DbInstancesHeaders else InstancesHeaders
  }

  /** The header the env filter looks at: "Env" for EC2, "Address" for RDS. */
  function EnvHeader(rds: bool): string {
    if rds then "Address" else "Env"
  }

  /** `header.index(header_inxed_env)` */
  function EnvColumn(rds: bool): (k: nat)
    ensures k < Width(rds)
  {
    if rds then 2 else 4
  }

  /** `header.index("State")` */
  function StateColumn(rds: bool): (k: nat)
    ensures k < Width(rds)
  {
    1
  }

  /** The two columns are where `list.index` finds their headers. */
  lemma ColumnsAreHeaderIndexes(rds: bool)
    ensures IndexOf(Headers(rds), EnvHeader(rds)) == Some(EnvColumn(rds))
    ensures IndexOf(Headers(rds), "State") == Some(StateColumn(rds))
  {
    var h := Headers(rds);
    assert h[0] != "State" && h[1] == "State";
    assert h[0] != EnvHeader(rds) && h[1] != EnvHeader(rds);
    assert h[EnvColumn(rds)] == EnvHeader(rds);
    if !rds {
      assert h[2] != "Env" && h[3] != "Env";
    }
  }

  /** Every row has at least as many cells as the header has columns. */
  predicate RowsFit(data: seq<Row>, rds: bool) {
    forall i :: 0 <= i < |data| ==> Width(rds) <= |data[i]|
  }

  /** A row with a cell in column `col` that contains `needle`. */
  predicate Matches(row: Row, col: nat, needle: string) {
    col < |row| && Contains(row[col], needle)
  }

  /** The rows of `data` whose cell in column `col` contains `needle`, in order. */
  function Keep(data: seq<Row>, col: nat, needle: string): (r: seq<Row>)
    ensures |r| <= |data|
  {
    if |data| == 0 then []
    else
      var last := data[|data| - 1];
      Keep(data[..|data| - 1], col, needle) + (if Matches(last, col, needle) then [last] else [])
  }

  /** The list `sort_parsed_data` builds before sorting. */
  function Selected(data: seq<Row>, env: string, state: string, rds: bool): (r: seq<Row>)
    requires RowsFit(data, rds)
    ensures RowsFit(r, rds)
  {
    KeepWidth(data, EnvColumn(rds), env, Width(rds));
    KeepWidth(data, StateColumn(rds), Lower(state), Width(rds));
    if state == "all" then data
    else
      (if env != "all" then Keep(data, EnvColumn(rds), env) else [])
      + Keep(data, StateColumn(rds), Lower(state))
  }

  /** The result of `sort_parsed_data`. */
  function SortParsed(data: seq<Row>, orderBy: string, env: string, state: string, rds: bool): seq<Row>
    requires RowsFit(data, rds)
  {
    var filtered := Selected(data, env, state, rds);
    match IndexOf(LowerAll(Headers(rds)), orderBy)
    case None => filtered
    case Some(k) => SortDesc(filtered, k)
  }

  /** Rows at least `w` cells wide stay so through a filter pass. */
  lemma {:induction false} KeepWidth(data: seq<Row>, col: nat, needle: string, w: nat)
    requires forall i :: 0 <= i < |data| ==> w <= |data[i]|
    ensures forall i :: 0 <= i < |Keep(data, col, needle)| ==> w <= |Keep(data, col, needle)[i]|
  {
    if |data| > 0 {
      var init, last := data[..|data| - 1], data[|data| - 1];
      KeepWidth(init, col, needle, w);
      var r := Keep(data, col, needle);
      assert r == Keep(init, col, needle) + (if Matches(last, col, needle) then [last] else []);
      forall i | 0 <= i < |r| ensures w <= |r[i]| {
        if i < |Keep(init, col, needle)| {
          assert r[i] == Keep(init, col, needle)[i];
        } else {
          assert r[i] == last;
        }
      }
    }
  }

  /** One more row scanned by a filter pass. */
  lemma KeepStep(data: seq<Row>, i: nat, col: nat, needle: string)
    requires i < |data|
    ensures Keep(data[..i + 1], col, needle) ==
      Keep(data[..i], col, needle) + (if Matches(data[i], col, needle) then [data[i]] else [])
  {
    assert data[..i + 1][..i] == data[..i];
  }

  /** One more row scanned by the env pass, which tests with `find`. */
  lemma EnvStep(data: seq<Row>, i: nat, col: nat, env: string)
    requires i < |data| && col < |data[i]|
    ensures Keep(data[..i + 1], col, env) ==
      Keep(data[..i], col, env) + (if Find(data[i][col], env) != -1 then [data[i]] else [])
  {
    KeepStep(data, i, col, env);
  }

  /** The filter passes of sort_parsed_data: the env pass when `env` is not "all",
      then the state pass when `state` is not "all", which otherwise replaces the
      list with all of `data`. */
  method FilterParsedData(data: seq<Row>, env: string, state: string, rds: bool)
    returns (filtered: seq<Row>)
    requires RowsFit(data, rds)
    ensures filtered == Selected(data, env, state, rds)
  {
    filtered := [];
    var envCol := EnvColumn(rds);
    var stateCol := StateColumn(rds);

    if env != "all" {
      for i := 0 to |data|
        invariant filtered == Keep(data[..i], envCol, env)
      {
        EnvStep(data, i, envCol, env);
        if Find(data[i][envCol], env) != -1 {
          filtered := filtered + [data[i]];
        }
      }
      assert data[..|data|] == data;
    }
    ghost var envPass := filtered;

    if state != "all" {
      var needle := Lower(state);
      for i := 0 to |data|
        invariant filtered == envPass + Keep(data[..i], stateCol, needle)
      {
        KeepStep(data, i, stateCol, needle);
        assert stateCol < |data[i]|;
        if Contains(data[i][stateCol], needle) {
          filtered := filtered + [data[i]];
        }
      }
      assert data[..|data|] == data;
    } else {
      filtered := data;
    }
  }

  /** sort_parsed_data: the filter passes, then a sort on the column whose lower-cased
      header is `order_by`, or no sort when there is none. */
  method SortParsedData(data: seq<Row>, orderBy: string, env: string, state: string, rds: bool)
    returns (r: seq<Row>)
    requires RowsFit(data, rds)
    ensures r == SortParsed(data, orderBy, env, state, rds)
  {
    var header := Headers(rds);
    var filtered := FilterParsedData(data, env, state, rds);
    var orderKey := IndexOf(LowerAll(header), orderBy);
    if orderKey.None? {
      return filtered;
    }
    assert orderKey.value < Width(rds);
    assert HasColumn(filtered, orderKey.value);
    r := SortDesc(filtered, orderKey.value);
  }

  // ---------------------------------------------------------------------
  // What the filter passes keep

  /** How often a row occurs in Keep: as often as in `data` when it matches, else never. */
  lemma {:induction false} KeepCount(data: seq<Row>, col: nat, needle: string, row: Row)
    ensures multiset(Keep(data, col, needle))[row] ==
      if Matches(row, col, needle) then multiset(data)[row] else 0
  {
    if |data| > 0 {
      var init := data[..|data| - 1];
      KeepCount(init, col, needle, row);
      assert data == init + [data[|data| - 1]];
    }
  }

  /** When every row matches, Keep returns `data` unchanged. */
  lemma {:induction false} KeepAll(data: seq<Row>, col: nat, needle: string)
    requires forall i :: 0 <= i < |data| ==> Matches(data[i], col, needle)
    ensures Keep(data, col, needle) == data
  {
    if |data| > 0 {
      KeepAll(data[..|data| - 1], col, needle);
      assert data == data[..|data| - 1] + [data[|data| - 1]];
    }
  }

  /** With a state filter, each row of the selection comes from the env pass or
      the state pass, both over the original rows: a row matching both filters
      is counted twice, and the env filter counts only when env is not "all". */
  lemma SelectedCount(data: seq<Row>, env: string, state: string, rds: bool, row: Row)
    requires RowsFit(data, rds)
    requires state != "all"
    ensures multiset(Selected(data, env, state, rds))[row] ==
      (if env != "all" && Matches(row, EnvColumn(rds), env) then multiset(data)[row] else 0) +
      (if Matches(row, StateColumn(rds), Lower(state)) then multiset(data)[row] else 0)
  {
    KeepCount(data, StateColumn(rds), Lower(state), row);
    if env != "all" {
      KeepCount(data, EnvColumn(rds), env, row);
    }
  }

  /** With state "all" the env filter is thrown away: every row comes back, once,
      whatever `env` and `orderBy` are. */
  lemma AllStatesKeepsEveryRow(data: seq<Row>, orderBy: string, env: string, rds: bool)
    requires RowsFit(data, rds)
    ensures multiset(SortParsed(data, orderBy, env, "all", rds)) == multiset(data)
    ensures |SortParsed(data, orderBy, env, "all", rds)| == |data|
  {
  }

  /** An `orderBy` that is not a lower-cased header leaves the selection in its order;
      one that is sorts it stably into non-increasing order of that column. */
  lemma OrderBy(data: seq<Row>, orderBy: string, env: string, state: string, rds: bool)
    requires RowsFit(data, rds)
    ensures var filtered := Selected(data, env, state, rds);
      var r := SortParsed(data, orderBy, env, state, rds);
      (orderBy !in LowerAll(Headers(rds)) ==> r == filtered) &&
      (orderBy in LowerAll(Headers(rds)) ==>
        var k := IndexOf(LowerAll(Headers(rds)), orderBy).value;
        HasColumn(filtered, k) && HasColumn(r, k) &&
        multiset(r) == multiset(filtered) &&
        NonIncreasing(r, k) &&
        forall v :: WithKey(r, k, v) == WithKey(filtered, k, v))
  {
    var filtered := Selected(data, env, state, rds);
    if orderBy in LowerAll(Headers(rds)) {
      var k := IndexOf(LowerAll(Headers(rds)), orderBy).value;
      SortDescNonIncreasing(filtered, k);
      forall v ensures WithKey(SortDesc(filtered, k), k, v) == WithKey(filtered, k, v) {
        SortDescStable(filtered, k, v);
      }
    }
  }

  /** The sort keys are the lower-cased headers. */
  lemma LowerHeaders()
    ensures LowerAll(InstancesHeaders) == ["name", "state", "state time", "public ip", "env", "id"]
    ensures LowerAll(DbInstancesHeaders) == ["name", "state", "address", "port"]
  {
    assert Lower("Name") == "name";
    assert Lower("State") == "state";
    assert Lower("State Time") == "state time";
    assert Lower("Public IP") == "public ip";
    assert Lower("Env") == "env";
    assert Lower("Id") == "id";
    assert Lower("Address") == "address";
    assert Lower("Port") == "port";
  }

  /** `orderBy` itself is not lower-cased: any capital letter in it means no sorting. */
  lemma OrderByIsCaseSensitive(data: seq<Row>, orderBy: string, env: string, state: string, rds: bool)
    requires RowsFit(data, rds)
    requires exists i :: 0 <= i < |orderBy| && IsUpper(orderBy[i])
    ensures SortParsed(data, orderBy, env, state, rds) == Selected(data, env, state, rds)
  {
  }

  // ---------------------------------------------------------------------
  // Line-mode presenter

  /** The lines the shell-compatible output prints: each row joined by `separ`. */
  method ShLines(data: seq<Row>, separ: string) returns (lines: seq<string>)
    ensures |lines| == |data|
    ensures forall i :: 0 <= i < |data| ==> lines[i] == Join(separ, data[i])
  {
    lines := [];
    for i := 0 to |data|
      invariant |lines| == i
      invariant forall j :: 0 <= j < i ==> lines[j] == Join(separ, data[j])
    {
      lines := lines + [Join(separ, data[i])];
    }
  }
}
