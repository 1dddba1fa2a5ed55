/** The two LINQ queries the repositories run over their tables:
    `FirstOrDefault(predicate)` and `Where(predicate)`. */
module Tables {
  import opened Wrappers

  /** `rows.FirstOrDefault(p)`: the first row that satisfies p, or none. */
  function FirstMatch<T>(rows: seq<T>, p: T -> bool): (r: Option<T>)
    ensures r.None? <==> forall i :: 0 <= i < |rows| ==> !p(rows[i])
    ensures r.Some? ==> exists i :: 0 <= i < |rows| && rows[i] == r.value && p(rows[i])
                                    && forall j :: 0 <= j < i ==> !p(rows[j])
    decreases |rows|
  {
    if |rows| == 0 then None
    else if p(rows[0]) then Some(rows[0])
    else
      var r := FirstMatch(rows[1..], p);
      assert forall i :: 1 <= i < |rows| ==> rows[i] == rows[1..][i - 1];
      r
  }

  /** `rows.Where(p)`: the rows that satisfy p, in their order. */
  function Where<T>(rows: seq<T>, p: T -> bool): (r: seq<T>)
    ensures |r| <= |rows|
    ensures forall i :: 0 <= i < |r| ==> r[i] in rows && p(r[i])
    ensures forall i :: 0 <= i < |rows| && p(rows[i]) ==> rows[i] in r
    decreases |rows|
  {
    if |rows| == 0 then []
    else
      var rest := Where(rows[1..], p);
      assert forall i :: 1 <= i < |rows| ==> rows[i] == rows[1..][i - 1];
      if p(rows[0]) then [rows[0]] + rest else rest
  }

  /** When one row satisfies p, `FirstOrDefault(p)` finds that row. */
  lemma FirstMatchOfOnly<T>(rows: seq<T>, p: T -> bool, k: nat)
    requires k < |rows| && p(rows[k])
    requires forall i :: 0 <= i < |rows| && i != k ==> !p(rows[i])
    ensures FirstMatch(rows, p) == Some(rows[k])
  {
  }
}
