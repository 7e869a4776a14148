/**
 * The alias table: alias names mapped to hexadecimal IR code strings,
 * built once at startup from the rows of a two-column CSV file by
 * `dict((a, b) for (a, b) in rows)`.
 */
module Aliases {
  import opened Wrappers

  type AliasTable = map<string, string>

  predicate AllPairs(rows: seq<seq<string>>) {
    forall i :: 0 <= i < |rows| ==> |rows[i]| == 2
  }

  /** The first fields of the rows. */
  function Keys(rows: seq<seq<string>>): set<string>
    requires AllPairs(rows)
  {
    set i | 0 <= i < |rows| :: rows[i][0]
  }

  /** Row `i` is the last row of `rows` whose first field is `rows[i][0]`. */
  predicate LastWithKey(rows: seq<seq<string>>, i: nat)
    requires AllPairs(rows) && i < |rows|
  {
    forall j :: i < j < |rows| ==> rows[j][0] != rows[i][0]
  }

  /** Every key takes the value of the last row that carries it. */
  predicate LastRowWins(rows: seq<seq<string>>, t: AliasTable)
    requires AllPairs(rows) && Keys(rows) <= t.Keys
  {
    forall i :: 0 <= i < |rows| && LastWithKey(rows, i) ==> t[rows[i][0]] == rows[i][1]
  }

  /**
   * Build the table from CSV rows. Unpacking a row into `(a, b)` fails
   * unless it has exactly two fields, and then the whole construction
   * fails. A key that occurs in several rows takes the value of its last
   * row, since each later pair overwrites the earlier one.
   */
  function FromRows(rows: seq<seq<string>>): (r: Option<AliasTable>)
    ensures r.Some? <==> AllPairs(rows)
    ensures r.Some? ==> r.value.Keys == Keys(rows) && LastRowWins(rows, r.value)
  {
    if rows == [] then Some(map[])
    else
      var prefix := rows[..|rows| - 1];
      var last := rows[|rows| - 1];
      match FromRows(prefix)
      case None =>
        assert !AllPairs(rows) by {
          var i :| 0 <= i < |prefix| && |prefix[i]| != 2;
          assert prefix[i] == rows[i];
        }
        None
      case Some(m) =>
        if |last| != 2 then None
        else
          AddRowStep(rows, m);
          Some(m[last[0] := last[1]])
  }

  /** The inductive step of `FromRows`: adding the last row to the table of
      the earlier rows. */
  lemma AddRowStep(rows: seq<seq<string>>, m: AliasTable)
    requires |rows| > 0 && |rows[|rows| - 1]| == 2
    requires AllPairs(rows[..|rows| - 1])
    requires m.Keys == Keys(rows[..|rows| - 1]) && LastRowWins(rows[..|rows| - 1], m)
    ensures AllPairs(rows)
    ensures m[rows[|rows| - 1][0] := rows[|rows| - 1][1]].Keys == Keys(rows)
    ensures LastRowWins(rows, m[rows[|rows| - 1][0] := rows[|rows| - 1][1]])
  {
    var prefix := rows[..|rows| - 1];
    var last := rows[|rows| - 1];
    var t := m[last[0] := last[1]];
    assert forall i :: 0 <= i < |prefix| ==> prefix[i] == rows[i];
    assert AllPairs(rows);
    forall k | k in Keys(rows) ensures k in t.Keys {
      var i :| 0 <= i < |rows| && rows[i][0] == k;
      if i < |prefix| { assert prefix[i][0] == k; }
    }
    forall k | k in t.Keys ensures k in Keys(rows) {
      if k != last[0] {
        var i :| 0 <= i < |prefix| && prefix[i][0] == k;
        assert rows[i][0] == k;
      } else {
        assert rows[|rows| - 1][0] == k;
      }
    }
    forall i | 0 <= i < |rows| && LastWithKey(rows, i)
      ensures t[rows[i][0]] == rows[i][1]
    {
      if i < |prefix| {
        assert LastWithKey(prefix, i);
      }
    }
  }

  /** Without an alias file the table is empty and no token is an alias. */
  lemma NoRowsNoAliases()
    ensures FromRows([]) == Some(map[])
  {
  }
}
