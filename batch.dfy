/**
 * The default write path, `handlePost`: a batch of row-prefix replacements. Items
 * without a truthy `row` or an array `values` are dropped, the rest are sorted by
 * row (a stable sort), and written one after the other; the first write the
 * service rejects ends the batch, and the writes before it stay.
 */
module Batch {
  import opened Wrappers
  import opened Cells
  import opened Protocol
  import opened Sheets

  /** An element of `dataToSet`: replace the first |values| cells of row `row`. */
  datatype Pending = Pending(row: int, values: seq<Value>)

  /** The `forEach` that fills `dataToSet`: the items with a truthy `row` and an
      array `values`, in request order. */
  function Collect(items: seq<Item>): (ps: seq<Pending>)
    ensures forall k :: 0 <= k < |ps| ==> ps[k].row != 0
    decreases |items|
  {
    if items == [] then []
    else
      var n := |items| - 1;
      var it := items[n];
      Collect(items[..n]) + (if it.row != 0 && it.values.Some? then [Pending(it.row, it.values.value)] else [])
  }

  /** An item is kept exactly when its `row` is truthy and its `values` is an array. */
  lemma {:induction false} CollectKeeps(items: seq<Item>)
    ensures forall p :: p in Collect(items) <==>
      exists it :: it in items && it.row != 0 && it.values.Some? && p == Pending(it.row, it.values.value)
    decreases |items|
  {
    if items != [] {
      var n := |items| - 1;
      CollectKeeps(items[..n]);
      assert items == items[..n] + [items[n]];
    }
  }

  predicate SortedByRow(ps: seq<Pending>)
  {
    forall i, j :: 0 <= i < j < |ps| ==> ps[i].row <= ps[j].row
  }

  /** The items of `ps` on row `row`, in order. */
  function OnRow(ps: seq<Pending>, row: int): seq<Pending>
    decreases |ps|
  {
    if ps == [] then []
    else (if ps[0].row == row then [ps[0]] else []) + OnRow(ps[1..], row)
  }

  /** Inserts `p` before the first element whose row is not smaller. */
  function InsertByRow(p: Pending, s: seq<Pending>): (r: seq<Pending>)
    ensures |r| == |s| + 1 && (r[0] == p || (s != [] && r[0] == s[0]))
    decreases |s|
  {
    if s == [] || p.row <= s[0].row then [p] + s
    else [s[0]] + InsertByRow(p, s[1..])
  }

  /** Inserting adds `p` and loses nothing. */
  lemma {:induction false} InsertByRowPermutes(p: Pending, s: seq<Pending>)
    ensures multiset(InsertByRow(p, s)) == multiset(s) + multiset{p}
    decreases |s|
  {
    if s != [] && p.row > s[0].row {
      InsertByRowPermutes(p, s[1..]);
      assert s == [s[0]] + s[1..];
    }
  }

  /** Inserting into a sorted batch keeps it sorted. */
  lemma {:induction false} InsertByRowSorted(p: Pending, s: seq<Pending>)
    requires SortedByRow(s)
    ensures SortedByRow(InsertByRow(p, s))
    decreases |s|
  {
    if s != [] && p.row > s[0].row {
      var tail := s[1..];
      var rest := InsertByRow(p, tail);
      assert SortedByRow(tail);
      InsertByRowSorted(p, tail);
      assert rest[0].row >= s[0].row;
      assert forall k :: 0 <= k < |rest| ==> rest[k].row >= s[0].row;
      var r := [s[0]] + rest;
      assert forall i, j :: 0 <= i < j < |r| ==> r[i].row <= r[j].row by {
        assert forall j :: 1 <= j < |r| ==> r[j] == rest[j - 1];
      }
    }
  }

  /** `dataToSet.sort((a, b) => a.row - b.row)`: ascending by row; the sort is stable,
      so items on the same row keep their request order. */
  function SortByRow(ps: seq<Pending>): (r: seq<Pending>)
    ensures SortedByRow(r)
    ensures multiset(r) == multiset(ps)
    decreases |ps|
  {
    if ps == [] then []
    else
      var rest := SortByRow(ps[1..]);
      assert ps == [ps[0]] + ps[1..];
      InsertByRowSorted(ps[0], rest);
      InsertByRowPermutes(ps[0], rest);
      InsertByRow(ps[0], rest)
  }

  lemma {:induction false} OnRowInsert(p: Pending, s: seq<Pending>, row: int)
    ensures OnRow(InsertByRow(p, s), row) == OnRow([p] + s, row)
    decreases |s|
  {
    if s == [] || p.row <= s[0].row {
    } else {
      var tail := s[1..];
      var rest := InsertByRow(p, tail);
      OnRowInsert(p, tail, row);
      var mine, theirs := (if p.row == row then [p] else []), (if s[0].row == row then [s[0]] else []);
      assert ([s[0]] + rest)[1..] == rest;
      assert ([p] + tail)[1..] == tail;
      assert ([p] + s)[1..] == s;
      calc {
        OnRow(InsertByRow(p, s), row);
        OnRow([s[0]] + rest, row);
        theirs + OnRow(rest, row);
        theirs + (mine + OnRow(tail, row));
        { assert mine == [] || theirs == []; }
        mine + (theirs + OnRow(tail, row));
        mine + OnRow(s, row);
        OnRow([p] + s, row);
      }
    }
  }

  /** Stability: on every row, the sorted batch holds the same items in the same order. */
  lemma {:induction false} SortByRowStable(ps: seq<Pending>, row: int)
    ensures OnRow(SortByRow(ps), row) == OnRow(ps, row)
    decreases |ps|
  {
    if ps != [] {
      SortByRowStable(ps[1..], row);
      OnRowInsert(ps[0], SortByRow(ps[1..]), row);
      assert ([ps[0]] + SortByRow(ps[1..]))[1..] == SortByRow(ps[1..]);
    }
  }

  /** Sorting neither adds nor drops an item. */
  lemma SortKeepsItems(ps: seq<Pending>)
    ensures forall p :: p in SortByRow(ps) <==> p in ps
  {
    var sorted := SortByRow(ps);
    forall p ensures p in sorted <==> p in ps {
      assert p in sorted <==> p in multiset(sorted);
      assert p in ps <==> p in multiset(ps);
    }
  }

  /** The service accepts the write of item `p`. */
  predicate Fits(g: Grid, p: Pending)
  {
    RangeFits(g, p.row, 1, |p.values|)
  }

  datatype Written = Written(grid: Grid, ok: bool)

  /** The write loop in the `try`: each item in turn, until one is rejected. */
  function WriteAll(g: Grid, ps: seq<Pending>): (w: Written)
    ensures SameShape(g, w.grid)
    decreases |ps|
  {
    if ps == [] then Written(g, true)
    else if !Fits(g, ps[0]) then Written(g, false)
    else WriteAll(WriteRange(g, ps[0].row, 1, ps[0].values), ps[1..])
  }

  lemma FitsSameShape(g: Grid, h: Grid, p: Pending)
    requires SameShape(g, h)
    ensures Fits(g, p) <==> Fits(h, p)
  {
  }

  /** Item `p` writes cell (r, c). */
  predicate Covers(p: Pending, r: int, c: int)
  {
    p.row == r && 1 <= c <= |p.values|
  }

  /** The value the last item of `ps` that covers cell (r, c) writes there. */
  function LastWrite(ps: seq<Pending>, r: int, c: int): (v: Option<Value>)
    ensures v.Some? <==> exists k :: 0 <= k < |ps| && Covers(ps[k], r, c)
    decreases |ps|
  {
    if ps == [] then None
    else
      var later := LastWrite(ps[1..], r, c);
      if later.Some? then
        ghost var k :| 0 <= k < |ps[1..]| && Covers(ps[1..][k], r, c);
        assert Covers(ps[k + 1], r, c);
        later
      else if Covers(ps[0], r, c) then Some(ps[0].values[c - 1])
      else
        assert forall k :: 1 <= k < |ps| ==> ps[k] == ps[1..][k - 1];
        None
  }

  /** Only the items on row r matter to the cells of row r. */
  lemma {:induction false} LastWriteOnRow(ps: seq<Pending>, r: int, c: int)
    ensures LastWrite(ps, r, c) == LastWrite(OnRow(ps, r), r, c)
    decreases |ps|
  {
    if ps != [] {
      LastWriteOnRow(ps[1..], r, c);
      var tail := OnRow(ps[1..], r);
      if ps[0].row == r {
        var on := [ps[0]] + tail;
        assert OnRow(ps, r) == on;
        assert on[1..] == tail && on[0] == ps[0];
      } else {
        assert OnRow(ps, r) == tail;
      }
    }
  }

  /** The batch is accepted exactly when the service accepts every item's range. */
  lemma {:induction false} WriteAllOkIff(g: Grid, ps: seq<Pending>)
    ensures WriteAll(g, ps).ok <==> forall k :: 0 <= k < |ps| ==> Fits(g, ps[k])
    decreases |ps|
  {
    if ps != [] && Fits(g, ps[0]) {
      var h := WriteRange(g, ps[0].row, 1, ps[0].values);
      WriteAllOkIff(h, ps[1..]);
      forall k | 0 <= k < |ps| {
        FitsSameShape(g, h, ps[k]);
      }
      assert forall k :: 1 <= k < |ps| ==> ps[k] == ps[1..][k - 1];
    }
  }

  /** A completed batch leaves in each cell the value of the last item covering it,
      and every cell no item covers unchanged. */
  lemma {:induction false} WriteAllCells(g: Grid, ps: seq<Pending>)
    requires WriteAll(g, ps).ok
    ensures forall r, c :: InGrid(g, r, c) ==>
      WriteAll(g, ps).grid[r - 1][c - 1] == LastWrite(ps, r, c).GetOr(g[r - 1][c - 1])
    decreases |ps|
  {
    if ps != [] {
      var h := WriteRange(g, ps[0].row, 1, ps[0].values);
      WriteAllCells(h, ps[1..]);
      forall r, c | InGrid(g, r, c)
        ensures WriteAll(g, ps).grid[r - 1][c - 1] == LastWrite(ps, r, c).GetOr(g[r - 1][c - 1])
      {
        assert InGrid(h, r, c);
      }
    }
  }

  /** A rejected item ends the batch: the items before it were accepted and written,
      it and the items after it were not. */
  lemma {:induction false} WriteAllAborts(g: Grid, ps: seq<Pending>) returns (k: int)
    requires !WriteAll(g, ps).ok
    ensures 0 <= k < |ps| && !Fits(g, ps[k]) && forall j :: 0 <= j < k ==> Fits(g, ps[j])
    ensures WriteAll(g, ps[..k]).ok && WriteAll(g, ps).grid == WriteAll(g, ps[..k]).grid
    decreases |ps|
  {
    if !Fits(g, ps[0]) {
      k := 0;
    } else {
      var h := WriteRange(g, ps[0].row, 1, ps[0].values);
      var k' := WriteAllAborts(h, ps[1..]);
      k := k' + 1;
      FitsSameShape(g, h, ps[k]);
      forall j | 0 <= j < k ensures Fits(g, ps[j]) {
        if j > 0 {
          assert ps[j] == ps[1..][j - 1];
          FitsSameShape(g, h, ps[j]);
        }
      }
      assert ps[..k][1..] == ps[1..][..k'];
    }
  }

  /** The response and new grid of `handlePost`. */
  function Post(g: Grid, body: Body): Effect
  {
    match body
    case Unparsable => Effect(Err(InvalidJson), g)
    case Parsed(doc) =>
      if doc.updates.None? then Effect(Err(NoUpdatesArray), g)
      else
        var w := WriteAll(g, SortByRow(Collect(doc.updates.value)));
        Effect(if w.ok then Ok(RowsUpdated) else Err(BatchWriteFailed), w.grid)
  }

  /** A parsed batch succeeds exactly when `updates` is an array and the service
      accepts the range of every kept item. */
  lemma PostSucceedsIff(g: Grid, doc: Doc)
    ensures Post(g, Parsed(doc)).response.Ok? <==>
      doc.updates.Some? && forall p :: p in Collect(doc.updates.value) ==> Fits(g, p)
  {
    if doc.updates.Some? {
      var kept := Collect(doc.updates.value);
      var sorted := SortByRow(kept);
      assert Post(g, Parsed(doc)).response.Ok? == WriteAll(g, sorted).ok;
      WriteAllOkIff(g, sorted);
      SortKeepsItems(kept);
      assert (forall k :: 0 <= k < |sorted| ==> Fits(g, sorted[k])) <==> (forall p :: p in sorted ==> Fits(g, p));
    }
  }

  /** A successful batch has the effect of writing the kept items in request order:
      each cell holds the value of the last item in the request that covers it, and
      every cell no item covers keeps its value. */
  lemma PostCells(g: Grid, doc: Doc)
    requires Post(g, Parsed(doc)).response.Ok?
    ensures SameShape(g, Post(g, Parsed(doc)).grid)
    ensures forall r, c :: InGrid(g, r, c) ==>
      Post(g, Parsed(doc)).grid[r - 1][c - 1] == LastWrite(Collect(doc.updates.value), r, c).GetOr(g[r - 1][c - 1])
  {
    var kept := Collect(doc.updates.value);
    var sorted := SortByRow(kept);
    WriteAllCells(g, sorted);
    forall r, c | InGrid(g, r, c) ensures LastWrite(sorted, r, c) == LastWrite(kept, r, c) {
      LastWriteOnRow(sorted, r, c);
      LastWriteOnRow(kept, r, c);
      SortByRowStable(kept, r);
    }
  }

  /** A rejected write aborts the batch with an error; the items sorted before it
      stay written and nothing after it is attempted. */
  lemma PostAborts(g: Grid, doc: Doc) returns (k: int)
    requires doc.updates.Some?
    requires !Post(g, Parsed(doc)).response.Ok?
    ensures Post(g, Parsed(doc)).response == Err(BatchWriteFailed)
    ensures var sorted := SortByRow(Collect(doc.updates.value));
      0 <= k < |sorted| && !Fits(g, sorted[k]) && forall j :: 0 <= j < k ==> Fits(g, sorted[j])
    ensures Post(g, Parsed(doc)).grid == WriteAll(g, SortByRow(Collect(doc.updates.value))[..k]).grid
  {
    k := WriteAllAborts(g, SortByRow(Collect(doc.updates.value)));
  }

  /** `handlePost(e, sheet)`. */
  method HandlePost(sheet: Sheet, body: Body) returns (resp: Response)
    modifies sheet
    ensures Effect(resp, sheet.cells) == Post(old(sheet.cells), body)
  {
    if body.Unparsable? {
      return Err(InvalidJson);
    }
    var doc := body.doc;
    if doc.updates.None? {
      return Err(NoUpdatesArray);
    }
    var updates := doc.updates.value;
    var dataToSet: seq<Pending> := [];
    for i := 0 to |updates|
      invariant dataToSet == Collect(updates[..i])
    {
      var update := updates[i];
      assert updates[..i + 1][..i] == updates[..i];
      if update.row != 0 && update.values.Some? {
        dataToSet := dataToSet + [Pending(update.row, update.values.value)];
      }
    }
    assert updates[..|updates|] == updates;
    dataToSet := SortByRow(dataToSet);
    var i := 0;
    while i < |dataToSet|
      invariant 0 <= i <= |dataToSet|
      invariant WriteAll(old(sheet.cells), dataToSet) == WriteAll(sheet.cells, dataToSet[i..])
    {
      var item := dataToSet[i];
      assert dataToSet[i..][1..] == dataToSet[i + 1..];
      var ok := sheet.SetValues(item.row, 1, item.values);
      if !ok {
        return Err(BatchWriteFailed);
      }
      i := i + 1;
    }
    return Ok(RowsUpdated);
  }
}
