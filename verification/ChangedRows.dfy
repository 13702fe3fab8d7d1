// A generated row that the application has changed: when its generation can still be deleted.
module ChangedRows {
  import opened Values
  import opened Store

  /** The rows after the application has replaced row k of a table. */
  function Changed(rows: Rows, t: Tenant, id: TableId, k: nat, r: Row): Rows
    requires k < |At(rows, t, id)|
  {
    rows[(t, id) := At(rows, t, id)[k := r]]
  }

  /** The key test sees a changed row if and only if its key columns still carry the written key. */
  lemma {:induction false} MatchesAfterChange(table: seq<Row>, key: Row, k: nat, r: Row)
    requires Matches(table, key) == [k] && k < |table|
    ensures Matches(table[k := r], key) == if RowMatches(r, key) then [k] else []
  {
    var n := |table| - 1;
    if k == n {
      assert table[k := r][..n] == table[..n];
      OnlyLastMatches(table, key);
    } else {
      assert table[k := r][..n] == table[..n][k := r];
      LastDoesNotMatch(table, key, k);
      MatchesAfterChange(table[..n], key, k, r);
    }
  }

  lemma OnlyLastMatches(table: seq<Row>, key: Row)
    requires table != [] && Matches(table, key) == [|table| - 1]
    ensures Matches(table[..|table| - 1], key) == []
  {
    var n, earlier := |table| - 1, Matches(table[..|table| - 1], key);
    assert n !in earlier;
    assert |[n]| == 1 && [n][0] == n;
  }

  lemma LastDoesNotMatch(table: seq<Row>, key: Row, k: nat)
    requires Matches(table, key) == [k] && k < |table| - 1
    ensures !RowMatches(table[|table| - 1], key) && Matches(table[..|table| - 1], key) == [k]
  {
    var n, all := |table| - 1, Matches(table, key);
    assert all[|all| - 1] == k != n;
  }

  /**
   * A delete that would have found exactly the written row, and finds it changed, goes through if
   * and only if the change left the key columns alone and nothing refers to the changed row; it then
   * leaves what it would have left without the change.  Other columns are never compared.
   */
  lemma ChangedRowErased(cat: Catalog, rows: Rows, t: Tenant, w: WrittenRow, k: nat, r: Row)
    requires Found(cat, At(rows, t, w.table), w.key) == [k] && k < |At(rows, t, w.table)|
    ensures var changed := Changed(rows, t, w.table, k, r);
      && (Erase(cat, changed, t, w).Some? <==> RowMatches(r, w.key) && !Pinned(cat, changed, t, w.table, k))
      && (Erase(cat, changed, t, w).Some? ==> Erase(cat, changed, t, w).value == Without(rows, t, w.table, k))
  {
    var table := At(rows, t, w.table);
    MatchesAfterChange(table, w.key, k, r);
    var changed := Changed(rows, t, w.table, k, r);
    assert table[k := r][..k] + table[k := r][k + 1..] == table[..k] + table[k + 1..];
    assert changed[(t, w.table) := table[..k] + table[k + 1..]] == rows[(t, w.table) := table[..k] + table[k + 1..]];
  }

  /** So what stops the delete of a changed row, when nothing refers to it, is a changed key column. */
  lemma ChangedKeyConflicts(cat: Catalog, rows: Rows, t: Tenant, w: WrittenRow, k: nat, r: Row)
    requires Found(cat, At(rows, t, w.table), w.key) == [k] && k < |At(rows, t, w.table)|
    requires !Pinned(cat, Changed(rows, t, w.table, k, r), t, w.table, k)
    ensures Erase(cat, Changed(rows, t, w.table, k, r), t, w) == None <==>
            exists c :: c in w.key && Canon(Get(r, c)) != Canon(w.key[c])
  {
    ChangedRowErased(cat, rows, t, w, k, r);
  }
}
