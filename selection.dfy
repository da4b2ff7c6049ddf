/** The next-group decision of `index`'s `inner`: read the report, keep the rows
    of the current case, present some catalog group no kept row names, or signal
    completion when there is none. `random.choice(list(choices))` is modelled as
    an arbitrary listing of the candidate set indexed by an injected draw. */
module Selection {
  import opened Text
  import opened Progress

  /** The viewing mode. The command line admits only the first two; `index`
      refuses any other name once it has a report to filter. */
  datatype Mode = Sequential | Individual | Unrecognized(name: string)

  /** What the handler answers. */
  datatype Outcome =
    | Present(group: string, images: seq<string>, index: nat, total: nat)
    | Completed
      /** `ValueError(f"Invalid mode: {mode}")`. */
    | InvalidMode(name: string)
      /** `random.choice` of an empty list raises `IndexError`. */
    | EmptyChoice

  /** Whether the mode's filter keeps a row: every row in sequential mode, the
      rows whose path equals the requested one in individual mode (a request
      without a path keeps none). */
  predicate Keeps(mode: Mode, path: Option<string>, r: Row)
    requires !mode.Unrecognized?
  {
    mode.Sequential? || path == Some(r.path)
  }

  /** The rows of the report that count for this request, in report order. */
  function Filter(rows: seq<Row>, mode: Mode, path: Option<string>): (frame: seq<Row>)
    requires !mode.Unrecognized?
    ensures |frame| <= |rows|
    ensures forall r :: r in frame <==> r in rows && Keeps(mode, path, r)
    ensures mode.Sequential? ==> frame == rows
  {
    if |rows| == 0 then []
    else
      (if Keeps(mode, path, rows[0]) then [rows[0]] else []) + Filter(rows[1..], mode, path)
  }

  /** The filter keeps every copy of a kept row and no copy of any other row:
      in individual mode, exactly the rows of the requested path. */
  lemma {:induction false} FilterCounts(rows: seq<Row>, mode: Mode, path: Option<string>, r: Row)
    requires !mode.Unrecognized?
    ensures multiset(Filter(rows, mode, path))[r] == if Keeps(mode, path, r) then multiset(rows)[r] else 0
  {
    if |rows| > 0 {
      var head := if Keeps(mode, path, rows[0]) then [rows[0]] else [];
      FilterCounts(rows[1..], mode, path, r);
      assert Filter(rows, mode, path) == head + Filter(rows[1..], mode, path);
      assert multiset(Filter(rows, mode, path)) == multiset(head) + multiset(Filter(rows[1..], mode, path));
      assert rows == [rows[0]] + rows[1..];
      assert multiset(rows) == multiset([rows[0]]) + multiset(rows[1..]);
    }
  }

  /** The groups named by some row. */
  ghost function Recorded(frame: seq<Row>): set<string>
  {
    set r | r in frame :: r.group
  }

  /** `list(s)`: the elements of a set in some order, each once. */
  ghost function ListOf(s: set<string>): (xs: seq<string>)
    ensures |xs| == |s|
    ensures forall x :: x in xs <==> x in s
    decreases |s|
  {
    if s == {} then []
    else
      var x :| x in s;
      [x] + ListOf(s - {x})
  }

  /** `random.choice(xs)` for the draw `draw`; an empty list has no choice. */
  ghost function Choice(xs: seq<string>, draw: nat): (c: Option<string>)
    ensures c.None? <==> |xs| == 0
    ensures c.Some? ==> c.value in xs
  {
    if |xs| == 0 then None else Some(xs[draw % |xs|])
  }

  /** Arithmetic helper, not a property of the server: a draw below the list
      length indexes the list directly. Kept apart so that the modulus stays out
      of `AnyRemainingGroupCanBePresented`'s proof context. */
  lemma DrawBelowLength(draw: nat, n: nat)
    requires draw < n
    ensures draw % n == draw
  {
  }

  /** `index`'s `inner`. `report` is what the report file holds (`None` when it
      does not exist), `path` the requested case path, `draw` the random draw. */
  ghost function Next(catalog: map<string, seq<string>>, report: Option<seq<Row>>,
                      mode: Mode, path: Option<string>, draw: nat): (o: Outcome)
    ensures o.Present? ==> o.group in catalog && o.images == catalog[o.group] && o.total == |catalog|
    ensures o.Present? && report.Some? ==>
      && !mode.Unrecognized?
      && o.group !in Recorded(Filter(report.value, mode, path))
      && o.index == |Filter(report.value, mode, path)| + 1
    ensures o.Present? && report.None? ==> o.index == 1
    ensures o.Completed? <==>
      report.Some? && !mode.Unrecognized? && catalog.Keys <= Recorded(Filter(report.value, mode, path))
    ensures o.InvalidMode? <==> report.Some? && mode.Unrecognized?
    ensures o.EmptyChoice? <==> report.None? && |catalog| == 0
  {
    if report.Some? then
      if mode.Unrecognized? then InvalidMode(mode.name)
      else
        var frame := Filter(report.value, mode, path);
        var remaining := catalog.Keys - Recorded(frame);
        var choice := Choice(ListOf(remaining), draw);
        assert choice.None? <==> remaining == {};
        assert remaining == {} <==> catalog.Keys <= Recorded(frame) by {
          if catalog.Keys <= Recorded(frame) {
            assert forall g :: g in catalog.Keys ==> g in Recorded(frame);
          } else {
            var g :| g in catalog.Keys && g !in Recorded(frame);
            assert g in remaining;
          }
        }
        if choice.None? then Completed
        else Present(choice.value, catalog[choice.value], |frame| + 1, |catalog|)
    else
      var choice := Choice(ListOf(catalog.Keys), draw);
      if choice.None? then EmptyChoice
      else Present(choice.value, catalog[choice.value], 1, |catalog|)
  }

  /** The groups still to be presented for this request. */
  ghost function Remaining(catalog: map<string, seq<string>>, rows: seq<Row>, mode: Mode, path: Option<string>): set<string>
    requires !mode.Unrecognized?
  {
    catalog.Keys - Recorded(Filter(rows, mode, path))
  }

  /** The choice ranges over the whole candidate set: every group not yet
      recorded for the case is presented for some draw, and with no report any
      catalog group is. */
  lemma AnyRemainingGroupCanBePresented(catalog: map<string, seq<string>>, report: Option<seq<Row>>,
                                        mode: Mode, path: Option<string>, g: string)
    requires !mode.Unrecognized?
    requires g in (if report.Some? then Remaining(catalog, report.value, mode, path) else catalog.Keys)
    ensures exists draw: nat :: Next(catalog, report, mode, path, draw).Present? &&
                                Next(catalog, report, mode, path, draw).group == g
  {
    if report.Some? {
      var frame := Filter(report.value, mode, path);
      var xs := ListOf(catalog.Keys - Recorded(frame));
      var i :| 0 <= i < |xs| && xs[i] == g;
      DrawBelowLength(i, |xs|);
      assert Choice(xs, i) == Some(g);
      assert Next(catalog, report, mode, path, i).group == g;
    } else {
      var xs := ListOf(catalog.Keys);
      var i :| 0 <= i < |xs| && xs[i] == g;
      DrawBelowLength(i, |xs|);
      assert Choice(xs, i) == Some(g);
      assert Next(catalog, report, mode, path, i).group == g;
    }
  }

  /** A missing report behaves like an empty one as long as the catalog is not
      empty: the same group for the same draw, at position 1. */
  lemma AbsentReportIsFreshStart(catalog: map<string, seq<string>>, mode: Mode, path: Option<string>, draw: nat)
    requires !mode.Unrecognized? && |catalog| > 0
    ensures Next(catalog, None, mode, path, draw) == Next(catalog, Some([]), mode, path, draw)
    ensures Next(catalog, None, mode, path, draw).Present? && Next(catalog, None, mode, path, draw).index == 1
  {
  }

  /** Filtering the report with one more row filters the old rows and then
      keeps or drops the new one. */
  lemma {:induction false} FilterAppend(rows: seq<Row>, r: Row, mode: Mode, path: Option<string>)
    requires !mode.Unrecognized?
    ensures Filter(rows + [r], mode, path) ==
            Filter(rows, mode, path) + (if Keeps(mode, path, r) then [r] else [])
  {
    if |rows| > 0 {
      assert (rows + [r])[1..] == rows[1..] + [r];
      FilterAppend(rows[1..], r, mode, path);
    }
  }

  /** One more row records its group and nothing else. */
  lemma RecordedAppend(frame: seq<Row>, row: Row)
    ensures Recorded(frame + [row]) == Recorded(frame) + {row.group}
  {
  }

  /** Recording a group for the requested case adds exactly that group to the
      case's recorded groups. */
  lemma {:induction false} SubmitRecordsGroup(rows: seq<Row>, mode: Mode, path: string, group: string, file: string)
    requires !mode.Unrecognized?
    ensures Recorded(Filter(rows + [Row(path, group, file)], mode, Some(path))) ==
            Recorded(Filter(rows, mode, Some(path))) + {group}
  {
    var row := Row(path, group, file);
    FilterAppend(rows, row, mode, Some(path));
    assert Keeps(mode, Some(path), row);
    RecordedAppend(Filter(rows, mode, Some(path)), row);
  }

  /** After the presented group is recorded for the same case, the next request
      presents a different group at the next position, or signals completion. */
  lemma SubmitAdvances(catalog: map<string, seq<string>>, report: Option<seq<Row>>, mode: Mode,
                       path: string, draw: nat, file: string, draw': nat)
    requires !mode.Unrecognized?
    ensures
      var o := Next(catalog, report, mode, Some(path), draw);
      o.Present? ==>
        var o' := Next(catalog, Some(RowsOf(report) + [Row(path, o.group, file)]), mode, Some(path), draw');
        o'.Completed? || (o'.Present? && o'.group != o.group && o'.index == o.index + 1)
  {
    var o := Next(catalog, report, mode, Some(path), draw);
    if !o.Present? { return; }
    var row := Row(path, o.group, file);
    var rows := RowsOf(report);
    var frame := Filter(rows, mode, Some(path));
    FilterAppend(rows, row, mode, Some(path));
    assert Keeps(mode, Some(path), row);
    var frame' := Filter(rows + [row], mode, Some(path));
    assert frame' == frame + [row];
    SubmitRecordsGroup(rows, mode, path, o.group, file);
    assert o.index == |frame| + 1 by {
      if report.None? {
        assert frame == [];
      }
    }
    var o' := Next(catalog, Some(rows + [row]), mode, Some(path), draw');
    assert !o'.InvalidMode? && !o'.EmptyChoice?;
    if o'.Present? {
      assert o'.group !in Recorded(frame');
      assert o'.index == |frame'| + 1;
    }
  }

  /** The history a single rater leaves when every submission records the
      group just presented: each kept row names a catalog group, none twice. */
  ghost predicate OnePerGroup(frame: seq<Row>, catalog: map<string, seq<string>>)
  {
    && (forall i :: 0 <= i < |frame| ==> frame[i].group in catalog)
    && (forall i, j :: 0 <= i < j < |frame| ==> frame[i].group != frame[j].group)
  }

  /** Rows naming distinct groups record as many groups as there are rows. */
  lemma {:induction false} OnePerGroupCount(frame: seq<Row>, catalog: map<string, seq<string>>)
    requires OnePerGroup(frame, catalog)
    ensures |Recorded(frame)| == |frame|
    ensures Recorded(frame) <= catalog.Keys
  {
    if |frame| > 0 {
      var init := frame[..|frame| - 1];
      var last := frame[|frame| - 1];
      OnePerGroupCount(init, catalog);
      assert frame == init + [last];
      assert last.group !in Recorded(init);
      assert Recorded(frame) == Recorded(init) + {last.group};
    }
  }

  /** A row for a catalog group not yet recorded keeps a history one-per-group. */
  lemma AppendKeepsOnePerGroup(frame: seq<Row>, row: Row, catalog: map<string, seq<string>>)
    requires OnePerGroup(frame, catalog)
    requires row.group in catalog && row.group !in Recorded(frame)
    ensures OnePerGroup(frame + [row], catalog)
  {
  }

  /** Recording the presented group keeps the history one-per-group. */
  lemma SubmitKeepsOnePerGroup(catalog: map<string, seq<string>>, rows: seq<Row>, mode: Mode,
                               path: string, draw: nat, file: string)
    requires !mode.Unrecognized?
    requires OnePerGroup(Filter(rows, mode, Some(path)), catalog)
    ensures
      var o := Next(catalog, Some(rows), mode, Some(path), draw);
      o.Present? ==> OnePerGroup(Filter(rows + [Row(path, o.group, file)], mode, Some(path)), catalog)
  {
    var o := Next(catalog, Some(rows), mode, Some(path), draw);
    if !o.Present? { return; }
    var row := Row(path, o.group, file);
    FilterAppend(rows, row, mode, Some(path));
    assert Keeps(mode, Some(path), row);
    AppendKeepsOnePerGroup(Filter(rows, mode, Some(path)), row, catalog);
  }

  /** With a one-per-group history the position never exceeds the number of
      groups, and it reaches it exactly when a single group is left. */
  lemma PositionWithinTotal(catalog: map<string, seq<string>>, rows: seq<Row>, mode: Mode,
                            path: Option<string>, draw: nat)
    requires !mode.Unrecognized?
    requires OnePerGroup(Filter(rows, mode, path), catalog)
    ensures
      var o := Next(catalog, Some(rows), mode, path, draw);
      o.Present? ==> o.index <= o.total && (o.index == o.total <==> |Remaining(catalog, rows, mode, path)| == 1)
  {
    var frame := Filter(rows, mode, path);
    OnePerGroupCount(frame, catalog);
    assert |catalog.Keys| == |catalog|;
    assert |catalog.Keys - Recorded(frame)| == |catalog.Keys| - |Recorded(frame)|;
  }

  /** A one-per-group history as long as the catalog covers every group, so
      the next request signals completion whatever the draw. */
  lemma FullCycleCompletes(catalog: map<string, seq<string>>, rows: seq<Row>, mode: Mode,
                           path: Option<string>, draw: nat)
    requires !mode.Unrecognized?
    requires OnePerGroup(Filter(rows, mode, path), catalog)
    requires |Filter(rows, mode, path)| == |catalog|
    ensures Next(catalog, Some(rows), mode, path, draw) == Completed
  {
    var frame := Filter(rows, mode, path);
    OnePerGroupCount(frame, catalog);
    assert |catalog.Keys| == |catalog|;
    assert |catalog.Keys - Recorded(frame)| == |catalog.Keys| - |Recorded(frame)|;
  }
}
