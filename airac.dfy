/** `get_airac_data` (main.py:81-99) and the choice of the effective date in `main`
    (main.py:121-134). The HTML page is taken as already parsed: a list of table
    rows, each a list of cells, each cell reduced to the stripped text of its first
    `<strong>` element, or None when it has none. */
module AiracDates {
  import opened Wrappers

  /** One `<td>`: the stripped text of its first `<strong>`, if it has one. */
  type Cell = Option<string>

  /** One `<tr>`: its cells in order. */
  type Row = seq<Cell>

  /** `cells[1]` on a row with a single cell raises IndexError, which nothing in
      the program catches. */
  datatype LookupError = CycleCellMissing(row: nat)

  /** The search stops at this row: the row has cells, and either it has no second
      cell (the lookup fails) or its second cell holds the target cycle. */
  predicate Stops(row: Row, target: string)
  {
    |row| > 0 && (|row| == 1 || row[1] == Some(target))
  }

  /** Row k is the first row at which the search stops. */
  predicate FirstStop(rows: seq<Row>, target: string, k: nat)
  {
    k < |rows| && Stops(rows[k], target) && forall j :: 0 <= j < k ==> !Stops(rows[j], target)
  }

  /** The three cases of the search cover every table: either no row stops the
      search, or exactly one row is the first to. */
  lemma {:induction false} FirstStopCases(rows: seq<Row>, target: string)
    ensures (forall j :: 0 <= j < |rows| ==> !Stops(rows[j], target)) ||
            exists k: nat :: FirstStop(rows, target, k)
    ensures forall k: nat, k': nat :: FirstStop(rows, target, k) && FirstStop(rows, target, k') ==> k == k'
  {
    if rows != [] {
      if Stops(rows[0], target) {
        assert FirstStop(rows, target, 0);
      } else {
        FirstStopCases(rows[1..], target);
        if exists k: nat :: FirstStop(rows[1..], target, k) {
          var k: nat :| FirstStop(rows[1..], target, k);
          assert rows[1..][k] == rows[k + 1];
          forall j | 0 <= j < k + 1 ensures !Stops(rows[j], target) {
            if j > 0 {
              assert rows[1..][j - 1] == rows[j];
            }
          }
          assert FirstStop(rows, target, k + 1);
        } else {
          forall j | 0 <= j < |rows| ensures !Stops(rows[j], target) {
            if j > 0 {
              assert rows[1..][j - 1] == rows[j];
            }
          }
        }
      }
    }
  }

  /** The search of `get_airac_data`: the last cell of the first row whose second
      cell holds the target, None when there is no such row, and an error when a
      one-cell row comes first. */
  method GetAiracData(rows: seq<Row>, target: string) returns (r: Result<Option<string>, LookupError>)
    ensures forall k: nat :: FirstStop(rows, target, k) && |rows[k]| == 1 ==>
      r == Failure(CycleCellMissing(k))
    ensures forall k: nat :: FirstStop(rows, target, k) && |rows[k]| > 1 ==>
      r == Success(rows[k][|rows[k]| - 1])
    ensures (forall j :: 0 <= j < |rows| ==> !Stops(rows[j], target)) ==> r == Success(None)
  {
    var i := 0;
    while i < |rows|
      invariant 0 <= i <= |rows|
      invariant forall j :: 0 <= j < i ==> !Stops(rows[j], target)
    {
      var cells := rows[i];
      if |cells| > 0 {
        if |cells| == 1 {
          return Failure(CycleCellMissing(i));
        }
        var cycleCell := cells[1];
        if cycleCell.Some? && cycleCell.value == target {
          var lastDateCell := cells[|cells| - 1];
          return Success(lastDateCell);
        }
      }
      i := i + 1;
    }
    return Success(None);
  }

  /** The outcome of the one GET request: a response with its status and its parsed
      table rows, or a request that raised. */
  datatype Fetch = Responded(status: int, rows: seq<Row>) | RequestFailed

  /** How `main` obtains the effective date: from the table when the request
      answered with status 200, otherwise from the operator's `manual` answer. A
      200 answer whose table lacks the cycle gives None, with no fallback. */
  method ResolveWef(fetch: Fetch, airac: string, manual: string) returns (wef: Result<Option<string>, LookupError>)
    ensures !(fetch.Responded? && fetch.status == 200) ==> wef == Success(Some(manual))
    ensures fetch.Responded? && fetch.status == 200 ==>
      forall k: nat :: FirstStop(fetch.rows, airac, k) && |fetch.rows[k]| > 1 ==>
        wef == Success(fetch.rows[k][|fetch.rows[k]| - 1])
    ensures fetch.Responded? && fetch.status == 200 ==>
      forall k: nat :: FirstStop(fetch.rows, airac, k) && |fetch.rows[k]| == 1 ==>
        wef == Failure(CycleCellMissing(k))
    ensures fetch.Responded? && fetch.status == 200 ==>
      (forall j :: 0 <= j < |fetch.rows| ==> !Stops(fetch.rows[j], airac)) ==> wef == Success(None)
  {
    if fetch.Responded? && fetch.status == 200 {
      wef := GetAiracData(fetch.rows, airac);
    } else {
      wef := Success(Some(manual));
    }
  }
}
