/** The three-way classification of two identifier sets into result rows.
    Python iterates a `set` in an unspecified order, so each loop's iteration
    order is an explicit parameter: any duplicate-free sequence listing exactly
    the set. Every property below holds for every such order. */
module Classification {
  import opened Wrappers

  datatype Status = Preserved | Missing | New {
    /** The status column as written into the report. */
    function Name(): string {
      match this
      case Preserved => "Preserved"
      case Missing => "Missing"
      case New => "New"
    }
  }

  /** The fixed human-readable detail that accompanies each status. */
  function Detail(status: Status): string {
    match status
    case Preserved => "Exists in both feeds"
    case Missing => "Not found in new feed"
    case New => "Only in new feed"
  }

  /** One entry of `result`: `[ext_id, status, details]`. */
  datatype Row = Row(id: string, status: Status, detail: string)

  /** The status an identifier is due, stated by set membership alone:
      `None` for an identifier that is in neither feed. */
  function Expected(id: string, oldIds: set<string>, newIds: set<string>): Option<Status> {
    if id in oldIds * newIds then Some(Preserved)
    else if id in oldIds - newIds then Some(Missing)
    else if id in newIds - oldIds then Some(New)
    else None
  }

  predicate Distinct(s: seq<string>) {
    forall i, j :: 0 <= i < j < |s| ==> s[i] != s[j]
  }

  function Elements(s: seq<string>): set<string> {
    set x | x in s
  }

  /** `order` is one possible iteration of the set `ids`. */
  predicate Enumerates(order: seq<string>, ids: set<string>) {
    Distinct(order) && Elements(order) == ids
  }

  /** An iteration visits as many elements as the set has. */
  lemma {:induction false} EnumerationSize(order: seq<string>, ids: set<string>)
    requires Enumerates(order, ids)
    ensures |ids| == |order|
  {
    if order != [] {
      var n := |order| - 1;
      var init := order[..n];
      assert Enumerates(init, Elements(init));
      EnumerationSize(init, Elements(init));
      assert order == init + [order[n]];
      assert ids == Elements(init) + {order[n]};
      assert order[n] !in Elements(init);
    } else {
      assert ids == {};
    }
  }

  /** Every identifier set can be iterated: some order enumerates it, so the
      iteration-order requirements below exclude no pair of sets. */
  lemma EnumerationExists(ids: set<string>) returns (order: seq<string>)
    ensures Enumerates(order, ids)
    decreases |ids|
  {
    if ids == {} {
      order := [];
      assert Elements(order) == {};
    } else {
      var x :| x in ids;
      var rest := EnumerationExists(ids - {x});
      order := rest + [x];
      assert Elements(order) == Elements(rest) + {x};
    }
  }

  /** The row the first loop appends for an old identifier (bot.py lines
      52-53: the status first, then the detail chosen from the status). */
  function OldRow(id: string, newIds: set<string>): Row {
    var status := if id in newIds then Preserved else Missing;
    Row(id, status, if status == Preserved then "Exists in both feeds" else "Not found in new feed")
  }

  /** The rows of the first loop, over the old identifiers in `order`. */
  function ClassifyOld(order: seq<string>, newIds: set<string>): (rows: seq<Row>)
    ensures |rows| == |order|
    ensures forall i :: 0 <= i < |order| ==>
              && rows[i].id == order[i]
              && rows[i].status != New
              && (rows[i].status == Preserved <==> order[i] in newIds)
              && rows[i].detail == Detail(rows[i].status)
  {
    if order == [] then []
    else ClassifyOld(order[..|order| - 1], newIds) + [OldRow(order[|order| - 1], newIds)]
  }

  /** The rows of the second loop, over `new_ids - old_ids` in `order`. */
  function ClassifyAdded(order: seq<string>): (rows: seq<Row>)
    ensures |rows| == |order|
    ensures forall i :: 0 <= i < |order| ==>
              rows[i].id == order[i] && rows[i].status == New && rows[i].detail == Detail(New)
  {
    if order == [] then []
    else ClassifyAdded(order[..|order| - 1]) + [Row(order[|order| - 1], New, "Only in new feed")]
  }

  /** `result` after both loops: the old feed's rows, then the added rows. */
  function Classify(oldIds: set<string>, newIds: set<string>,
                    oldOrder: seq<string>, addedOrder: seq<string>): (rows: seq<Row>)
    requires Enumerates(oldOrder, oldIds) && Enumerates(addedOrder, newIds - oldIds)
    ensures |rows| == |oldOrder| + |addedOrder|
    ensures forall i :: 0 <= i < |rows| ==> rows[i].id == (oldOrder + addedOrder)[i]
  {
    ClassifyOld(oldOrder, newIds) + ClassifyAdded(addedOrder)
  }

  /** The two loops, as written: a `result` list grown by appending. */
  method ClassifyLoops(oldIds: set<string>, newIds: set<string>,
                       oldOrder: seq<string>, addedOrder: seq<string>) returns (result: seq<Row>)
    requires Enumerates(oldOrder, oldIds) && Enumerates(addedOrder, newIds - oldIds)
    ensures result == Classify(oldIds, newIds, oldOrder, addedOrder)
  {
    result := [];
    var k := 0;
    while k < |oldOrder|
      invariant 0 <= k <= |oldOrder|
      invariant result == ClassifyOld(oldOrder[..k], newIds)
    {
      var extId := oldOrder[k];
      var status := if extId in newIds then Preserved else Missing;
      result := result + [Row(extId, status, if status == Preserved then "Exists in both feeds" else "Not found in new feed")];
      assert oldOrder[..k + 1][..k] == oldOrder[..k];
      k := k + 1;
    }
    assert oldOrder[..k] == oldOrder;
    var oldRows := result;
    k := 0;
    while k < |addedOrder|
      invariant 0 <= k <= |addedOrder|
      invariant result == oldRows + ClassifyAdded(addedOrder[..k])
    {
      result := result + [Row(addedOrder[k], New, "Only in new feed")];
      assert addedOrder[..k + 1][..k] == addedOrder[..k];
      k := k + 1;
    }
    assert addedOrder[..k] == addedOrder;
  }

  /** Status correctness: every row carries the status its identifier is due
      by set membership and that status's fixed detail; in particular no
      identifier of the old feed is ever labelled `New`. */
  lemma ClassifySound(oldIds: set<string>, newIds: set<string>,
                      oldOrder: seq<string>, addedOrder: seq<string>)
    requires Enumerates(oldOrder, oldIds) && Enumerates(addedOrder, newIds - oldIds)
    ensures var rows := Classify(oldIds, newIds, oldOrder, addedOrder);
            forall i :: 0 <= i < |rows| ==>
              && Expected(rows[i].id, oldIds, newIds) == Some(rows[i].status)
              && rows[i].detail == Detail(rows[i].status)
              && (rows[i].id in oldIds ==> rows[i].status != New)
  {
    var rows := Classify(oldIds, newIds, oldOrder, addedOrder);
    var olds := ClassifyOld(oldOrder, newIds);
    forall i | 0 <= i < |rows|
      ensures Expected(rows[i].id, oldIds, newIds) == Some(rows[i].status)
    {
      if i < |oldOrder| {
        assert rows[i] == olds[i];
        assert oldOrder[i] in Elements(oldOrder);
      } else {
        assert rows[i] == ClassifyAdded(addedOrder)[i - |oldOrder|];
        assert addedOrder[i - |oldOrder|] in Elements(addedOrder);
      }
    }
  }

  /** Completeness without duplicates: the identifiers of the rows are exactly
      `old_ids | new_ids`, each on one row only, so there are as many rows as
      the union has elements. */
  lemma ClassifyComplete(oldIds: set<string>, newIds: set<string>,
                         oldOrder: seq<string>, addedOrder: seq<string>)
    requires Enumerates(oldOrder, oldIds) && Enumerates(addedOrder, newIds - oldIds)
    ensures var rows := Classify(oldIds, newIds, oldOrder, addedOrder);
            && (forall id :: id in oldIds + newIds <==> exists i :: 0 <= i < |rows| && rows[i].id == id)
            && (forall i, j :: 0 <= i < j < |rows| ==> rows[i].id != rows[j].id)
            && |rows| == |oldIds + newIds|
  {
    var rows := Classify(oldIds, newIds, oldOrder, addedOrder);
    var all := oldOrder + addedOrder;
    assert Elements(all) == Elements(oldOrder) + Elements(addedOrder) by {
      forall x | x in Elements(all) ensures x in Elements(oldOrder) + Elements(addedOrder) {
        var i :| 0 <= i < |all| && all[i] == x;
        if i >= |oldOrder| { assert all[i] == addedOrder[i - |oldOrder|]; }
      }
    }
    assert oldIds + (newIds - oldIds) == oldIds + newIds;
    forall id | id in oldIds + newIds ensures exists i :: 0 <= i < |rows| && rows[i].id == id {
      var i :| 0 <= i < |all| && all[i] == id;
      assert rows[i].id == id;
    }
    forall i, j | 0 <= i < j < |rows| ensures rows[i].id != rows[j].id {
      assert rows[i].id == all[i] && rows[j].id == all[j];
      if i < |oldOrder| && j >= |oldOrder| {
        assert all[i] == oldOrder[i] && oldOrder[i] in oldIds;
        assert all[j] == addedOrder[j - |oldOrder|] && addedOrder[j - |oldOrder|] in newIds - oldIds;
      } else if j < |oldOrder| {
        assert all[i] == oldOrder[i] && all[j] == oldOrder[j];
      } else {
        assert all[i] == addedOrder[i - |oldOrder|] && all[j] == addedOrder[j - |oldOrder|];
      }
    }
    assert Enumerates(all, oldIds + newIds);
    EnumerationSize(all, oldIds + newIds);
  }

  /** Ordering: the rows from the old feed (`Preserved` or `Missing`) fill the
      first `len(old_ids)` positions and every `New` row comes after them. */
  lemma ClassifyOrder(oldIds: set<string>, newIds: set<string>,
                      oldOrder: seq<string>, addedOrder: seq<string>)
    requires Enumerates(oldOrder, oldIds) && Enumerates(addedOrder, newIds - oldIds)
    ensures var rows := Classify(oldIds, newIds, oldOrder, addedOrder);
            && (forall i :: 0 <= i < |rows| ==> (rows[i].status == New <==> i >= |oldIds|))
            && (forall i, j :: 0 <= i < j < |rows| && rows[i].status == New ==> rows[j].status == New)
  {
    EnumerationSize(oldOrder, oldIds);
    var rows := Classify(oldIds, newIds, oldOrder, addedOrder);
    forall i | 0 <= i < |rows| ensures rows[i].status == New <==> i >= |oldIds| {
      if i < |oldOrder| {
        assert rows[i] == ClassifyOld(oldOrder, newIds)[i];
      } else {
        assert rows[i] == ClassifyAdded(addedOrder)[i - |oldOrder|];
      }
    }
  }

  /** `result` is empty exactly when both feeds yielded no identifier. */
  lemma ClassifyEmptyIff(oldIds: set<string>, newIds: set<string>,
                         oldOrder: seq<string>, addedOrder: seq<string>)
    requires Enumerates(oldOrder, oldIds) && Enumerates(addedOrder, newIds - oldIds)
    ensures Classify(oldIds, newIds, oldOrder, addedOrder) == [] <==> oldIds == {} && newIds == {}
  {
    ClassifyComplete(oldIds, newIds, oldOrder, addedOrder);
    if oldIds + newIds == {} {
      assert oldIds == {} && newIds == {};
    } else {
      var id :| id in oldIds + newIds;
    }
  }

  /** Old feed `{A, B}` and new feed `{B, C}`: A is missing, B preserved and
      C new. */
  lemma ClassifyExample()
    ensures Classify({"A", "B"}, {"B", "C"}, ["A", "B"], ["C"]) ==
            [ Row("A", Missing, "Not found in new feed"),
              Row("B", Preserved, "Exists in both feeds"),
              Row("C", New, "Only in new feed") ]
  {
    assert Elements(["A", "B"]) == {"A", "B"};
    assert {"B", "C"} - {"A", "B"} == {"C"};
    assert Elements(["C"]) == {"C"};
    assert ["A", "B"][..1] == ["A"];
    assert ["A"][..0] == [];
    assert ["C"][..0] == [];
  }
}
