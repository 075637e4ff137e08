/** `WHERE id = ?`: finding a row by its id. */
module Lookup {
  import opened Wrappers

  function FindBy<T>(rows: seq<T>, key: nat, id: T -> nat): (r: Option<nat>)
    ensures r.Some? ==> r.value < |rows| && id(rows[r.value]) == key
    ensures r.None? ==> forall i :: 0 <= i < |rows| ==> id(rows[i]) != key
  {
    if rows == [] then None
    else if id(rows[|rows| - 1]) == key then Some(|rows| - 1)
    else FindBy(rows[..|rows| - 1], key, id)
  }

  /** Replacing a row by one with the same id moves nothing. */
  lemma {:induction false} FindBySame<T>(rows: seq<T>, key: nat, id: T -> nat, i: nat, row: T)
    requires i < |rows| && id(row) == id(rows[i])
    ensures FindBy(rows[i := row], key, id) == FindBy(rows, key, id)
  {
    var init := rows[..|rows| - 1];
    if i < |init| {
      FindBySame(init, key, id, i, row);
      assert rows[i := row][..|rows| - 1] == init[i := row];
    } else {
      assert rows[i := row][..|rows| - 1] == init;
    }
  }
}
