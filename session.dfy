/**
 * The session controller: the scan for the next unlabeled row, the progress
 * counts, the choice of what the page shows, and the session object that
 * holds the table, the visitation order and the cursor and carries out the
 * Yes, No, Skip and Clear All Labels actions.
 */
module Session {
  import opened Wrappers
  import opened Store
  import opened Order

  /** Every row of the table has a set label. */
  predicate AllLabeled(rows: seq<Row>)
  {
    forall i :: 0 <= i < |rows| ==> !IsUnset(rows[i].lbl)
  }

  /**
   * get_next_unlabeled_item: the first row position in `order` whose label is
   * unset, or None when every position in `order` is labeled.
   */
  function FirstUnlabeled(rows: seq<Row>, order: seq<nat>): (r: Option<nat>)
    requires InRange(order, |rows|)
    ensures r.None? <==> forall k :: 0 <= k < |order| ==> !IsUnset(rows[order[k]].lbl)
    ensures r.Some? ==> r.value in order && r.value < |rows| && IsUnset(rows[r.value].lbl)
    ensures r.Some? ==>
      exists k :: 0 <= k < |order| && order[k] == r.value &&
        forall j :: 0 <= j < k ==> !IsUnset(rows[order[j]].lbl)
    decreases |order|
  {
    if order == [] then None
    else if IsUnset(rows[order[0]].lbl) then Some(order[0])
    else
      var r := FirstUnlabeled(rows, order[1..]);
      assert r.Some? ==>
        exists k :: 1 <= k < |order| && order[k] == r.value &&
          forall j :: 0 <= j < k ==> !IsUnset(rows[order[j]].lbl);
      r
  }

  /** The scan as the source writes it: a loop over the order that returns at the first unset label. */
  method NextUnlabeledItem(rows: array<Row>, order: seq<nat>) returns (r: Option<nat>)
    requires InRange(order, rows.Length)
    ensures r == FirstUnlabeled(rows[..], order)
  {
    for k := 0 to |order|
      invariant FirstUnlabeled(rows[..], order[k..]) == FirstUnlabeled(rows[..], order)
    {
      var idx := order[k];
      if IsUnset(rows[idx].lbl) {
        return Some(idx);
      }
      assert order[k..][1..] == order[k + 1..];
    }
    return None;
  }

  /** The number of rows whose label is neither NaN nor the empty string. */
  function CountLabeled(rows: seq<Row>): (n: nat)
    ensures n <= |rows|
    ensures n == |rows| <==> AllLabeled(rows)
    ensures n == 0 <==> forall i :: 0 <= i < |rows| ==> IsUnset(rows[i].lbl)
  {
    if rows == [] then 0
    else
      var n := (if IsUnset(rows[0].lbl) then 0 else 1) + CountLabeled(rows[1..]);
      assert forall i :: 1 <= i < |rows| ==> rows[i] == rows[1..][i - 1];
      n
  }

  /** Two tables of the same length whose rows agree on which labels are unset. */
  predicate SameUnset(rows: seq<Row>, rows': seq<Row>)
  {
    |rows'| == |rows| && forall i :: 0 <= i < |rows| ==> (IsUnset(rows'[i].lbl) <==> IsUnset(rows[i].lbl))
  }

  /** The scan sees only which labels are unset. */
  lemma {:induction false} FirstUnlabeledSameUnset(rows: seq<Row>, rows': seq<Row>, order: seq<nat>)
    requires SameUnset(rows, rows') && InRange(order, |rows|)
    ensures FirstUnlabeled(rows', order) == FirstUnlabeled(rows, order)
    decreases |order|
  {
    if order != [] {
      FirstUnlabeledSameUnset(rows, rows', order[1..]);
    }
  }

  /** The labeled count sees only which labels are unset. */
  lemma {:induction false} CountLabeledSameUnset(rows: seq<Row>, rows': seq<Row>)
    requires SameUnset(rows, rows')
    ensures CountLabeled(rows') == CountLabeled(rows)
    decreases |rows|
  {
    if rows != [] {
      assert forall i :: 1 <= i < |rows| ==> rows[1..][i - 1] == rows[i] && rows'[1..][i - 1] == rows'[i];
      CountLabeledSameUnset(rows[1..], rows'[1..]);
    }
  }


  datatype Progress = Progress(labeled: nat, remaining: nat, total: nat)

  /**
   * The progress counts: labeled and remaining rows add up to the total, and
   * nothing remains exactly when every row is labeled.
   */
  function ProgressOf(rows: seq<Row>): (p: Progress)
    ensures p.total == |rows| && p.labeled + p.remaining == p.total
    ensures p.remaining == 0 <==> AllLabeled(rows)
    ensures p.labeled == 0 <==> forall i :: 0 <= i < |rows| ==> IsUnset(rows[i].lbl)
  {
    var labeled := CountLabeled(rows);
    Progress(labeled, |rows| - labeled, |rows|)
  }

  /**
   * Labeling never unsets a row: if every row labeled in `before` is labeled
   * in `after`, the count cannot drop, and it rises when some unset row of
   * `before` is labeled in `after`.
   */
  lemma {:induction false} CountLabeledMonotone(before: seq<Row>, after: seq<Row>)
    requires |before| == |after|
    requires forall i :: 0 <= i < |before| && !IsUnset(before[i].lbl) ==> !IsUnset(after[i].lbl)
    ensures CountLabeled(after) >= CountLabeled(before)
    ensures (exists i :: 0 <= i < |before| && IsUnset(before[i].lbl) && !IsUnset(after[i].lbl)) ==>
      CountLabeled(after) > CountLabeled(before)
  {
    if before != [] {
      assert forall i :: 1 <= i < |before| ==> before[1..][i - 1] == before[i] && after[1..][i - 1] == after[i];
      CountLabeledMonotone(before[1..], after[1..]);
    }
  }

  /** Saving a Yes or No label never lowers the labeled count, and raises it when the ID names an unset row. */
  lemma SaveLabelProgress(rows: seq<Row>, id: Cell, answer: Answer)
    ensures CountLabeled(WithLabel(rows, id, Token(answer))) >= CountLabeled(rows)
    ensures (exists i :: 0 <= i < |rows| && SameId(rows[i].id, id) && IsUnset(rows[i].lbl)) ==>
      CountLabeled(WithLabel(rows, id, Token(answer))) > CountLabeled(rows)
  {
    var after := WithLabel(rows, id, Token(answer));
    CountLabeledMonotone(rows, after);
  }

  /** After Reset nothing is labeled and everything remains. */
  lemma ResetProgress(rows: seq<Row>)
    ensures ProgressOf(Cleared(rows)) == Progress(0, |rows|, |rows|)
  {
  }

  /**
   * What Skip chooses from: the positions of `order`, in order, other than the
   * current one and with an unset label.
   */
  function SkipCandidates(rows: seq<Row>, order: seq<nat>, current: nat): (c: seq<nat>)
    requires InRange(order, |rows|)
    ensures forall x :: x in c <==> x in order && x != current && x < |rows| && IsUnset(rows[x].lbl)
    ensures c != [] ==>
      exists k :: 0 <= k < |order| && order[k] == c[0] &&
        forall j :: 0 <= j < k ==> order[j] == current || !IsUnset(rows[order[j]].lbl)
    decreases |order|
  {
    if order == [] then []
    else
      var rest := SkipCandidates(rows, order[1..], current);
      assert forall x :: x in order <==> x == order[0] || x in order[1..];
      if order[0] != current && IsUnset(rows[order[0]].lbl) then [order[0]] + rest
      else
        assert rest != [] ==>
          exists k :: 1 <= k < |order| && order[k] == rest[0] &&
            forall j :: 0 <= j < k ==> order[j] == current || !IsUnset(rows[order[j]].lbl);
        rest
  }

  /** The order is a permutation of the row positions and a cursor, if any, is a row position. */
  predicate SessionShape(rows: seq<Row>, order: seq<nat>, cursor: Option<nat>)
  {
    IsPermutation(order, |rows|) && |order| == |rows| && InRange(order, |rows|) &&
    (cursor.Some? ==> cursor.value < |rows|)
  }

  /** The Skip candidates depend only on which labels are unset. */
  lemma {:induction false} SkipCandidatesSameUnset(rows: seq<Row>, rows': seq<Row>, order: seq<nat>, current: nat)
    requires SameUnset(rows, rows') && InRange(order, |rows|)
    ensures SkipCandidates(rows', order, current) == SkipCandidates(rows, order, current)
    decreases |order|
  {
    if order != [] {
      SkipCandidatesSameUnset(rows, rows', order[1..], current);
    }
  }

  /**
   * Reading the file back after a write changes nothing the controller looks
   * at: over the reread rows the scan, the progress counts and the Skip
   * candidates are as over the rows held in memory.
   */
  lemma RereadIsInvisible(f: Frame, order: seq<nat>, current: nat)
    requires HasSchema(f) && InRange(order, |f.records|)
    ensures HasSchema(Reread(f))
    ensures var rows, rows' := RowsOf(f), RowsOf(Reread(f));
      FirstUnlabeled(rows', order) == FirstUnlabeled(rows, order) &&
      ProgressOf(rows') == ProgressOf(rows) &&
      SkipCandidates(rows', order, current) == SkipCandidates(rows, order, current)
  {
    RowsOfReread(f);
    var rows, rows' := RowsOf(f), RowsOf(Reread(f));
    assert SameUnset(rows, rows');
    FirstUnlabeledSameUnset(rows, rows', order);
    CountLabeledSameUnset(rows, rows');
    SkipCandidatesSameUnset(rows, rows', order, current);
  }

  /**
   * The session invariant: the shape above, a cursor that shows an item shows
   * an unlabeled one, and no cursor means that every row is labeled.
   */
  predicate SessionInv(rows: seq<Row>, order: seq<nat>, cursor: Option<nat>)
  {
    SessionShape(rows, order, cursor) &&
    match cursor
    case None => AllLabeled(rows)
    case Some(i) => i < |rows| && IsUnset(rows[i].lbl)
  }

  /** Over a permutation the scan finds nothing exactly when nothing remains to label. */
  lemma ScanExhaustedIffNoneRemaining(rows: seq<Row>, order: seq<nat>)
    requires IsPermutation(order, |rows|)
    ensures InRange(order, |rows|)
    ensures FirstUnlabeled(rows, order).None? <==> ProgressOf(rows).remaining == 0
    ensures SessionInv(rows, order, FirstUnlabeled(rows, order))
  {
    PermutationFacts(order, |rows|);
    if FirstUnlabeled(rows, order).None? {
      forall i | 0 <= i < |rows|
        ensures !IsUnset(rows[i].lbl)
      {
        assert i in order;
        var k :| 0 <= k < |order| && order[k] == i;
      }
    }
  }

  /** What the page shows after a load: the finished message, the item at the cursor, or the "no items" error. */
  datatype Screen = AllDone | Presenting(index: nat, ordinal: nat, total: nat) | NoItems

  function ScreenOf(rows: seq<Row>, cursor: Option<nat>): Screen
  {
    var p := ProgressOf(rows);
    if p.remaining == 0 then AllDone
    else match cursor
      case Some(i) => Presenting(i, p.labeled + 1, p.total)
      case None => NoItems
  }

  /**
   * Under the session invariant the page shows the finished message exactly
   * when there is no cursor, never the "no items" error, and a presented item
   * is an unlabeled row whose ordinal "Item k of n" lies within 1 .. n.
   */
  lemma ScreenFollowsCursor(rows: seq<Row>, order: seq<nat>, cursor: Option<nat>)
    requires SessionInv(rows, order, cursor)
    ensures ScreenOf(rows, cursor) != NoItems
    ensures ScreenOf(rows, cursor) == AllDone <==> cursor.None?
    ensures ScreenOf(rows, cursor).Presenting? ==>
      var s := ScreenOf(rows, cursor);
      s.index < |rows| && IsUnset(rows[s.index].lbl) && 1 <= s.ordinal <= s.total == |rows|
  {
  }

  /**
   * The session object: `rows` is the table as the file holds it (a single
   * session is its only writer), `order` the visitation order fixed when the
   * session starts and `cursor` the row position on screen, if any.
   */
  class Session {
    var rows: array<Row>
    var order: seq<nat>
    var cursor: Option<nat>

    /** The order is a permutation of the row positions and the cursor, if any, is one of them. */
    ghost predicate Valid()
      reads this, rows
    {
      SessionShape(rows[..], order, cursor)
    }

    /** Valid, and the cursor shows an unlabeled row, or there is none and every row is labeled. */
    ghost predicate Consistent()
      reads this, rows
    {
      SessionInv(rows[..], order, cursor)
    }

    /** Session start: shuffle the positions with the fixed seed and point at the first unlabeled one. */
    constructor (table: seq<Row>, gen: Generator)
      ensures Valid() && Consistent() && fresh(rows)
      ensures rows[..] == table
      ensures order == ShuffledOrder(|table|, gen(ShuffleSeed))
      ensures cursor == FirstUnlabeled(table, order)
    {
      var a := new Row[|table|](k requires 0 <= k < |table| => table[k]);
      assert a[..] == table;
      var o := GetShuffledOrder(|table|, gen, ShuffleSeed);
      ScanExhaustedIffNoneRemaining(table, o);
      var c := NextUnlabeledItem(a, o);
      rows, order, cursor := a, o, c;
    }

    /**
     * save_label: every row whose ID equals `id` gets the label `l`, nothing
     * else changes, and success is reported even when no row matches.  A
     * write that fails leaves the file as it was and reports failure.
     */
    method SaveLabel(id: Cell, l: Cell, writeOk: bool) returns (ok: bool)
      modifies rows
      ensures ok == writeOk
      ensures rows[..] == if ok then WithLabel(old(rows[..]), id, l) else old(rows[..])
    {
      if !writeOk {
        return false;
      }
      for k := 0 to rows.Length
        invariant forall m :: 0 <= m < k ==>
          rows[m] == if SameId(old(rows[m]).id, id) then old(rows[m]).(lbl := l) else old(rows[m])
        invariant forall m :: k <= m < rows.Length ==> rows[m] == old(rows[m])
      {
        if SameId(rows[k].id, id) {
          rows[k] := rows[k].(lbl := l);
        }
      }
      return true;
    }

    /**
     * The Yes and No buttons: save the answer for the current row's ID and, if
     * the save succeeded, reload the file and move the cursor to the first
     * unlabeled row of the order, which is never the row just labeled.  If the
     * save failed, nothing changes.  If the save succeeded but the reload
     * failed, `get_next_unlabeled_item` is handed no table and raises, so the
     * label is written while the cursor stays on the row just labeled.
     */
    method Label(answer: Answer, writeOk: bool, reloadOk: bool) returns (saved: bool)
      requires Valid() && cursor.Some?
      modifies this`cursor, rows
      ensures Valid()
      ensures saved == writeOk
      ensures rows[..] ==
        if saved then WithLabel(old(rows[..]), old(rows[cursor.value].id), Token(answer)) else old(rows[..])
      ensures cursor == if saved && reloadOk then FirstUnlabeled(rows[..], order) else old(cursor)
      ensures saved && reloadOk ==> Consistent()
      ensures !saved ==> (Consistent() <==> old(Consistent()))
      ensures saved && old(rows[cursor.value].id).Some? ==>
        !IsUnset(rows[old(cursor).value].lbl)
      ensures saved && old(rows[cursor.value].id).Some? && old(IsUnset(rows[cursor.value].lbl)) ==>
        CountLabeled(rows[..]) > CountLabeled(old(rows[..]))
      ensures saved && reloadOk && old(rows[cursor.value].id).Some? ==> cursor != old(cursor)
      ensures saved && !reloadOk && old(rows[cursor.value].id).Some? ==> !Consistent()
    {
      ghost var before := rows[..];
      var current := cursor.value;
      var id := rows[current].id;
      saved := SaveLabel(id, Token(answer), writeOk);
      if saved {
        SaveLabelProgress(before, id, answer);
        if id.Some? {
          assert rows[..][current] == before[current].(lbl := Token(answer));
        }
        if reloadOk {
          cursor := NextUnlabeledItem(rows, order);
          ScanExhaustedIffNoneRemaining(rows[..], order);
        }
      }
    }

    /**
     * The Skip button: move the cursor to the first row of the order other
     * than the current one whose label is unset, writing nothing; when there
     * is none the cursor stays and `moved` is false.
     */
    method Skip() returns (moved: bool)
      requires Valid() && cursor.Some?
      modifies this`cursor
      ensures Valid()
      ensures old(Consistent()) ==> Consistent()
      ensures moved ==> cursor.Some? && cursor.value < rows.Length && IsUnset(rows[cursor.value].lbl)
      ensures var c := SkipCandidates(rows[..], order, old(cursor).value);
        moved == (c != []) && cursor == if moved then Some(c[0]) else old(cursor)
    {
      var candidates := SkipCandidates(rows[..], order, cursor.value);
      moved := candidates != [];
      if moved {
        assert candidates[0] in candidates;
        cursor := Some(candidates[0]);
      }
    }

    /**
     * The Clear All Labels button: blank every label and put the cursor on the
     * first row of the order; if the rewrite fails, nothing changes.
     */
    method Reset(writeOk: bool) returns (ok: bool)
      requires Valid() && cursor.Some?
      modifies this`cursor, rows
      ensures Valid()
      ensures ok ==> Consistent()
      ensures !ok ==> (Consistent() <==> old(Consistent()))
      ensures ok == writeOk
      ensures rows[..] == if ok then Cleared(old(rows[..])) else old(rows[..])
      ensures cursor == if ok then Some(order[0]) else old(cursor)
    {
      if !writeOk {
        return false;
      }
      for k := 0 to rows.Length
        invariant forall m :: 0 <= m < k ==> rows[m] == old(rows[m]).(lbl := Blank)
        invariant forall m :: k <= m < rows.Length ==> rows[m] == old(rows[m])
      {
        rows[k] := rows[k].(lbl := Blank);
      }
      assert rows[..] == Cleared(old(rows[..]));
      ClearedProperties(old(rows[..]));
      cursor := Some(order[0]);
      return true;
    }
  }
}
