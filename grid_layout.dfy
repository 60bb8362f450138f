/**
 * The integer side of SnapKit+Ex.swift: the guards of the distribution
 * helpers, the rows and columns of the two `distributeSudokuViews` grids, the
 * empty views that pad a short grid to a full first row, and the search for the
 * common superview that every constraint is made against.
 */
module GridLayout {
  import opened Wrappers
  import opened ViewTree
  import Arith

  // ---------------------------------------------------------------------------
  // Guards
  // ---------------------------------------------------------------------------

  /** The guard of `distributeViewsAlongAxis`: more than one view. */
  predicate AxisGuard(count: nat)
  {
    count > 1
  }

  /** The guard of both `distributeSudokuViews`, as written with `||`. */
  predicate SudokuGuardAsWritten(count: nat, numberOfPerLine: int)
  {
    count > 1 || numberOfPerLine >= 1
  }

  /** With two views or more the guard passes whatever `numberOfPerLine` is, so
    * zero reaches `array.count % numberOfPerLine` and a negative count gives
    * negative rows. */
  lemma SudokuGuardAsWrittenAdmitsAnyPerLine(count: nat, numberOfPerLine: int)
    requires count > 1
    ensures SudokuGuardAsWritten(count, numberOfPerLine)
  {
  }

  /** The guard the error message asks for: more than one view and at least one
    * view per line, so that the row arithmetic below is defined. */
  predicate SudokuGuard(count: nat, numberOfPerLine: int)
  {
    count > 1 && numberOfPerLine >= 1
  }

  // ---------------------------------------------------------------------------
  // Rows and columns
  // ---------------------------------------------------------------------------

  /** `rowCount`: the rows needed for `count` views, `numberOfPerLine` a row. */
  function RowCount(count: nat, numberOfPerLine: int): (rows: nat)
    requires numberOfPerLine >= 1
    ensures count <= rows * numberOfPerLine
    ensures rows == 0 || (rows - 1) * numberOfPerLine < count
  {
    var q := count / numberOfPerLine;
    var r := count % numberOfPerLine;
    assert count == q * numberOfPerLine + r;
    if r == 0 then q else q + 1
  }

  /** `rowCount` is the ceiling of `count / numberOfPerLine`. */
  lemma RowCountIsCeiling(count: nat, numberOfPerLine: int)
    requires numberOfPerLine >= 1
    ensures RowCount(count, numberOfPerLine) == (count + numberOfPerLine - 1) / numberOfPerLine
  {
    var p := numberOfPerLine;
    var rows := RowCount(count, p);
    if rows == 0 {
      Arith.DivModUnique(count + p - 1, p, 0, count + p - 1);
    } else {
      var rest := count + p - 1 - (rows - 1) * p - p;
      assert count + p - 1 == rows * p + rest;
      Arith.DivModUnique(count + p - 1, p, rows, rest);
    }
  }

  /** `currentRow` and `currentColumn` of the view at `idx`. */
  function Cell(idx: nat, numberOfPerLine: int): (c: (nat, nat))
    requires numberOfPerLine >= 1
    ensures c.1 < numberOfPerLine
    ensures idx == c.0 * numberOfPerLine + c.1
  {
    (idx / numberOfPerLine, idx % numberOfPerLine)
  }

  /** Every view of the array lands in a cell of the grid. */
  lemma CellInGrid(idx: nat, count: nat, numberOfPerLine: int)
    requires numberOfPerLine >= 1 && idx < count
    ensures Cell(idx, numberOfPerLine).0 < RowCount(count, numberOfPerLine)
  {
    var c := Cell(idx, numberOfPerLine);
    var rows := RowCount(count, numberOfPerLine);
    if c.0 >= rows {
      Arith.MulMonotone(numberOfPerLine, c.0 - rows + 1);
      assert false;
    }
  }

  /** Under the corrected guard the grid arithmetic is defined and sound, for
    * both variants: the rows are at least one, and every view of the array (of
    * the padded `items`, at least `numberOfPerLine` long) lands in a row of
    * the grid and a column below `numberOfPerLine`. */
  lemma SudokuGuardCorrects(count: nat, numberOfPerLine: int)
    requires SudokuGuard(count, numberOfPerLine)
    ensures RowCount(count, numberOfPerLine) >= 1
    ensures forall idx :: 0 <= idx < count ==>
      Cell(idx, numberOfPerLine).0 < RowCount(count, numberOfPerLine) && Cell(idx, numberOfPerLine).1 < numberOfPerLine
    ensures var padded := if numberOfPerLine > count then numberOfPerLine else count;
      RowCount(padded, numberOfPerLine) >= 1
      && forall idx :: 0 <= idx < padded ==> Cell(idx, numberOfPerLine).0 < RowCount(padded, numberOfPerLine)
  {
    var padded := if numberOfPerLine > count then numberOfPerLine else count;
    forall idx | 0 <= idx < count {
      CellInGrid(idx, count, numberOfPerLine);
    }
    forall idx | 0 <= idx < padded {
      CellInGrid(idx, padded, numberOfPerLine);
    }
  }

  /** The views are numbered row by row: a cell gives back its index. */
  lemma CellInverse(row: nat, column: nat, numberOfPerLine: int)
    requires numberOfPerLine >= 1 && column < numberOfPerLine
    ensures Cell(row * numberOfPerLine + column, numberOfPerLine) == (row, column)
  {
    Arith.DivModUnique(row * numberOfPerLine + column, numberOfPerLine, row, column);
  }

  /** The cells `distributeSudokuViews` assigns, view by view. */
  method GridCells(count: nat, numberOfPerLine: int) returns (cells: seq<(nat, nat)>)
    requires numberOfPerLine >= 1
    ensures |cells| == count
    ensures forall idx :: 0 <= idx < count ==> cells[idx] == Cell(idx, numberOfPerLine)
    ensures forall idx :: 0 <= idx < count ==>
      cells[idx].0 < RowCount(count, numberOfPerLine) && cells[idx].1 < numberOfPerLine
  {
    cells := [];
    for idx := 0 to count
      invariant |cells| == idx
      invariant forall k :: 0 <= k < idx ==> cells[k] == Cell(k, numberOfPerLine)
      invariant forall k :: 0 <= k < idx ==>
        cells[k].0 < RowCount(count, numberOfPerLine) && cells[k].1 < numberOfPerLine
    {
      var currentRow := idx / numberOfPerLine;
      var currentColumn := idx % numberOfPerLine;
      CellInGrid(idx, count, numberOfPerLine);
      cells := cells + [(currentRow, currentColumn)];
    }
  }

  /** The fixed-spacing grid `items`: when the first row is short, empty views
    * `next`, `next + 1`, ... are added to `superview` and appended until there
    * are `numberOfPerLine` views. */
  method PadWithEmptyViews(t: Tree, views: seq<ViewId>, numberOfPerLine: int, superview: ViewId, next: ViewId)
    returns (t': Tree, items: seq<ViewId>)
    requires Valid(t)
    requires superview < next
    requires forall v :: v in t.superview ==> v < next
    requires forall i :: 0 <= i < |views| ==> views[i] < next
    ensures Valid(t')
    ensures |items| == if numberOfPerLine > |views| then numberOfPerLine else |views|
    ensures items[..|views|] == views
    ensures forall k :: |views| <= k < |items| ==> items[k] == next + (k - |views|)
    ensures forall k :: |views| <= k < |items| ==> Superview(t', items[k]) == Some(superview)
    ensures forall v :: v in t.superview ==> v in t'.superview && t'.superview[v] == t.superview[v]
    ensures forall k :: |views| <= k < |items| ==> items[k] !in t.superview && items[k] !in views
    ensures t'.superview.Keys == t.superview.Keys + set v | v in items[|views|..]
  {
    t' := t;
    items := views;
    if numberOfPerLine > |views| {
      for i := 0 to numberOfPerLine - |views|
        invariant Valid(t')
        invariant |items| == |views| + i
        invariant items[..|views|] == views
        invariant forall k :: |views| <= k < |items| ==> items[k] == next + (k - |views|)
        invariant forall k :: |views| <= k < |items| ==> Superview(t', items[k]) == Some(superview)
        invariant forall v :: v in t.superview ==> v in t'.superview && t'.superview[v] == t.superview[v]
        invariant forall v :: v in t'.superview ==> v < next + i
        invariant t'.superview.Keys == t.superview.Keys + set v | v in items[|views|..]
      {
        var emptyView := next + i;
        assert (items + [emptyView])[|views|..] == items[|views|..] + [emptyView];
        t' := Tree(t'.superview[emptyView := superview]);
        items := items + [emptyView];
      }
    }
  }

  // ---------------------------------------------------------------------------
  // The common superview
  // ---------------------------------------------------------------------------

  /** `closestCommonSuperview(_:)` of `receiver`: up the argument's chain, the
    * first view that is also on the receiver's chain. */
  method ClosestCommonSuperview(t: Tree, receiver: ViewId, view: Option<ViewId>)
    returns (closest: Option<ViewId>)
    requires Valid(t)
    ensures view == None ==> closest == None
    ensures view.Some? ==> closest == FirstIn(Chain(t, view.value), ChainSet(t, receiver))
  {
    var s := ChainSet(t, receiver);
    closest := None;
    var second := view;
    while closest == None && second.Some?
      invariant closest == None && view.Some? ==>
        FirstIn(Chain(t, view.value), s) == if second.Some? then FirstIn(Chain(t, second.value), s) else None
      invariant closest.Some? ==> view.Some? && closest == FirstIn(Chain(t, view.value), s)
      invariant view == None ==> closest == None && second == None
      decreases if second.Some? then second.value + 1 else 0
    {
      var secondView := second.value;
      var first: Option<ViewId> := Some(receiver);
      while closest == None && first.Some?
        invariant closest == None ==> (secondView in s <==> first.Some? && secondView in Chain(t, first.value))
        invariant closest.Some? ==> closest == Some(secondView) && secondView in s
        decreases if first.Some? then first.value + 1 else 0
      {
        var firstView := first.value;
        if secondView == firstView {
          closest := Some(secondView);
        }
        assert Chain(t, firstView) == [firstView] + (if firstView in t.superview then Chain(t, t.superview[firstView]) else []);
        first := Superview(t, firstView);
      }
      FirstInChainStep(t, secondView, s);
      second := Superview(t, secondView);
    }
  }

  /** What `commonSuperviewOfViews` folds the array into: the first view, then
    * the closest common superview of each further view and the result so far. */
  function CommonFold(t: Tree, views: seq<ViewId>): Option<ViewId>
    requires Valid(t)
  {
    if views == [] then None
    else if |views| == 1 then Some(views[0])
    else match CommonFold(t, views[..|views| - 1])
      case None => None
      case Some(c) => FirstIn(Chain(t, c), ChainSet(t, views[|views| - 1]))
  }

  /** `commonSuperviewOfViews()`. `None` is its `fatalError`, for views that
    * share no superview. */
  method CommonSuperviewOfViews(t: Tree, views: seq<ViewId>) returns (common: Option<ViewId>)
    requires Valid(t)
    ensures common == CommonFold(t, views)
  {
    common := None;
    var previous: Option<ViewId> := None;
    for i := 0 to |views|
      invariant previous == None <==> i == 0
      invariant common == CommonFold(t, views[..i])
    {
      var view := views[i];
      assert views[..i + 1][..i] == views[..i];
      if previous.Some? {
        common := ClosestCommonSuperview(t, view, common);
      } else {
        common := Some(view);
      }
      previous := Some(view);
    }
    assert views[..|views|] == views;
  }

  /** A view shared by the chains of all the views. */
  predicate CommonAncestor(t: Tree, views: seq<ViewId>, x: ViewId)
    requires Valid(t)
  {
    forall i :: 0 <= i < |views| ==> x in Chain(t, views[i])
  }

  /** The fold finds a view every view is under (or is). */
  lemma {:induction false} CommonFoldIsCommon(t: Tree, views: seq<ViewId>)
    requires Valid(t)
    ensures CommonFold(t, views).Some? ==> CommonAncestor(t, views, CommonFold(t, views).value)
  {
    if |views| > 1 {
      var init := views[..|views| - 1];
      CommonFoldIsCommon(t, init);
      var r := CommonFold(t, views);
      if r.Some? {
        var c := CommonFold(t, init).value;
        forall i | 0 <= i < |views|
          ensures r.value in Chain(t, views[i])
        {
          if i < |views| - 1 {
            assert views[i] == init[i];
            ChainTransitive(t, r.value, c, views[i]);
          }
        }
      }
    }
  }

  /** And it is the lowest such view: the fold fails only when no view is common
    * to all, and every common view is on the chain of its result. */
  lemma {:induction false} CommonFoldIsLowest(t: Tree, views: seq<ViewId>, x: ViewId)
    requires Valid(t) && views != [] && CommonAncestor(t, views, x)
    ensures CommonFold(t, views).Some?
    ensures x in Chain(t, CommonFold(t, views).value)
  {
    if |views| > 1 {
      var init := views[..|views| - 1];
      assert CommonAncestor(t, init, x) by {
        forall i | 0 <= i < |init| ensures x in Chain(t, init[i]) {
          assert init[i] == views[i];
        }
      }
      CommonFoldIsLowest(t, init, x);
      var c := CommonFold(t, init).value;
      FirstCommonIsLowest(t, c, views[|views| - 1], x);
    }
  }
}
