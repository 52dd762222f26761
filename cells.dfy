/** Cells of a dataset. The source stores every cell as a double and marks a
    missing observation with NaN; here a cell is either the missing marker or
    an observed real value, so "is NaN" becomes a constructor test. */
module Cells {

  datatype Cell = Missing | Value(v: real)

  /** Number of missing cells in a column. */
  function MissingCount(s: seq<Cell>): (k: nat)
    ensures k <= |s|
  {
    if s == [] then 0
    else (if s[0].Missing? then 1 else 0) + MissingCount(s[1..])
  }

  /** The observed values of a column, in row order, with the missing cells dropped. */
  function Observed(s: seq<Cell>): (r: seq<real>)
    ensures |r| == |s| - MissingCount(s)
  {
    if s == [] then []
    else if s[0].Value? then [s[0].v] + Observed(s[1..])
    else Observed(s[1..])
  }

  /** The observed values are exactly the values of the observed cells. */
  lemma {:induction false} ObservedMembers(s: seq<Cell>, x: real)
    ensures x in Observed(s) <==> Value(x) in s
  {
    if s != [] {
      ObservedMembers(s[1..], x);
      assert s == [s[0]] + s[1..];
    }
  }

  /** The observed values of a column split in two parts concatenate. */
  lemma {:induction false} ObservedAppend(s: seq<Cell>, t: seq<Cell>)
    ensures Observed(s + t) == Observed(s) + Observed(t)
  {
    if s == [] {
      assert s + t == t;
    } else {
      assert (s + t)[1..] == s[1..] + t;
      ObservedAppend(s[1..], t);
    }
  }

  /** Counting the missing cells of a column split in two parts adds up. */
  lemma {:induction false} MissingCountAppend(s: seq<Cell>, t: seq<Cell>)
    ensures MissingCount(s + t) == MissingCount(s) + MissingCount(t)
  {
    if s == [] {
      assert s + t == t;
    } else {
      assert (s + t)[1..] == s[1..] + t;
      MissingCountAppend(s[1..], t);
    }
  }

  /** Extending a prefix of a column by one cell adds one to its missing
      count exactly when that cell is missing. */
  lemma MissingCountStep(s: seq<Cell>, k: nat)
    requires k < |s|
    ensures MissingCount(s[..k + 1]) == MissingCount(s[..k]) + (if s[k].Missing? then 1 else 0)
  {
    MissingCountAppend(s[..k], [s[k]]);
    assert s[..k + 1] == s[..k] + [s[k]];
  }

  /** A column has no missing cell exactly when its missing count is zero. */
  lemma {:induction false} NoMissingIff(s: seq<Cell>)
    ensures MissingCount(s) == 0 <==> forall i :: 0 <= i < |s| ==> s[i].Value?
  {
    if s != [] {
      NoMissingIff(s[1..]);
      assert forall i :: 1 <= i < |s| ==> s[i] == s[1..][i - 1];
    }
  }

  /** A column is entirely missing exactly when its missing count is its length. */
  lemma {:induction false} AllMissingIff(s: seq<Cell>)
    ensures MissingCount(s) == |s| <==> forall i :: 0 <= i < |s| ==> s[i].Missing?
  {
    if s != [] {
      AllMissingIff(s[1..]);
      assert forall i :: 1 <= i < |s| ==> s[i] == s[1..][i - 1];
    }
  }
}
