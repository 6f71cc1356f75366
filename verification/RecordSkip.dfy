/**
 Skipping records that cannot match. A comparison of one column with one scalar is
 decided for a whole record by the record's minimum and maximum; such records are masked
 out unread. The mask is the one a full evaluation gives.
 */
module RecordSkip {
  import opened Sequences
  import opened Query
  import Footer
  import RecordIndex

  /** A number as NumPy orders it; NaT is unordered like NaN. Booleans are 0 and 1. */
  datatype Num = Finite(x: real) | PosInf | NegInf | NaN

  datatype Value = Number(n: Num) | Listed(members: seq<Num>)

  function LessThan(a: Num, b: Num): bool {
    match (a, b)
    case (NaN, _) => false
    case (_, NaN) => false
    case (Finite(x), Finite(y)) => x < y
    case (NegInf, _) => b != NegInf
    case (_, PosInf) => a != PosInf
    case _ => false
  }

  function Same(a: Num, b: Num): bool { a != NaN && a == b }

  function Holds(rel: Rel, a: Num, b: Num): bool {
    match rel
    case Less => LessThan(a, b)
    case LessEqual => LessThan(a, b) || Same(a, b)
    case Greater => LessThan(b, a)
    case GreaterEqual => LessThan(b, a) || Same(a, b)
    case Equal => Same(a, b)
    case NotEqual => !Same(a, b)
  }

  /** The comparisons are one total order on what is a number, and NaN is in no relation but `!=`. */
  lemma OrderLaws(a: Num, b: Num, c: Num)
    ensures Holds(NotEqual, a, b) == !Holds(Equal, a, b) && Holds(Greater, a, b) == Holds(Less, b, a)
    ensures Holds(LessEqual, a, b) == (Holds(Less, a, b) || Holds(Equal, a, b))
    ensures Holds(GreaterEqual, a, b) == Holds(LessEqual, b, a)
    ensures a.NaN? || b.NaN? ==> !Holds(Less, a, b) && !Holds(Equal, a, b)
    ensures !a.NaN? && !b.NaN? ==> Holds(LessEqual, a, b) == !Holds(Less, b, a)
    ensures !a.NaN? && !b.NaN? ==> Holds(Equal, a, b) == (a == b)
    ensures Holds(Less, a, b) && Holds(Less, b, c) ==> Holds(Less, a, c)
    ensures a.Finite? && b.Finite? ==> Holds(Less, a, b) == (a.x < b.x)
    ensures a.Finite? ==> Holds(Less, NegInf, a) && Holds(Less, a, PosInf)
    ensures Holds(Less, NegInf, PosInf)
  {
  }

  function Embed(b: bool): Value { Number(Finite(if b then 1.0 else 0.0)) }

  /** The comparison ufuncs compare numbers. */
  ghost predicate Compares(s: Semantics<Value>) {
    forall rel, a, b :: s.apply(Relation(rel), [Number(a), Number(b)]) == Embed(Holds(rel, a, b))
  }

  // ---- `column_stat` ----

  datatype Kind = Float | Integer | Time | Text

  datatype Stat = Stat(min: Num, max: Num, prunable: bool)

  predicate AllFinite(cells: seq<Num>) { forall k :: 0 <= k < |cells| ==> cells[k].Finite? }

  /** Integers and booleans have no special values, times have NaT only. */
  predicate Typed(kind: Kind, cells: seq<Num>) {
    match kind
    case Integer => AllFinite(cells)
    case Time => forall k :: 0 <= k < |cells| ==> cells[k].Finite? || cells[k].NaN?
    case _ => true
  }

  function Least(cells: seq<Num>): (m: Num)
    requires cells != []
  {
    var n := |cells| - 1;
    if n == 0 then cells[0]
    else
      var rest := Least(cells[..n]);
      if LessThan(cells[n], rest) then cells[n] else rest
  }

  function Greatest(cells: seq<Num>): (m: Num)
    requires cells != []
  {
    var n := |cells| - 1;
    if n == 0 then cells[0]
    else
      var rest := Greatest(cells[..n]);
      if LessThan(rest, cells[n]) then cells[n] else rest
  }

  function ColumnStat(kind: Kind, cells: seq<Num>): Stat {
    var none := Stat(Finite(0.0), Finite(0.0), false);
    if kind.Text? || cells == [] then none
    else if kind.Float? && !AllFinite(cells) then none
    else if kind.Time? && NaN in cells then none
    else Stat(Least(cells), Greatest(cells), true)
  }

  /** A prunable record's extremes are attained, and bound every cell. */
  ghost predicate Describes(stat: Stat, cells: seq<Num>) {
    stat.prunable ==>
      && stat.min.Finite? && stat.max.Finite? && stat.min in cells && stat.max in cells
      && forall k :: 0 <= k < |cells| ==> cells[k].Finite? && stat.min.x <= cells[k].x <= stat.max.x
  }

  lemma {:induction false} LeastIs(cells: seq<Num>)
    requires cells != [] && AllFinite(cells)
    ensures Least(cells) in cells && Greatest(cells) in cells
    ensures forall k :: 0 <= k < |cells| ==> Least(cells).x <= cells[k].x <= Greatest(cells).x
  {
    var n := |cells| - 1;
    if n > 0 {
      LeastIs(cells[..n]);
      assert forall k :: 0 <= k < n ==> cells[..n][k] == cells[k];
    }
  }

  /** What the writer records is true of the record, and it marks as prunable every record it soundly can. */
  lemma ColumnStatDescribes(kind: Kind, cells: seq<Num>)
    requires Typed(kind, cells)
    ensures Describes(ColumnStat(kind, cells), cells)
    ensures ColumnStat(kind, cells).prunable <==> kind != Text && cells != [] && AllFinite(cells)
  {
    assert kind.Time? && NaN in cells ==> !AllFinite(cells);
    if ColumnStat(kind, cells).prunable {
      assert AllFinite(cells) by {
        forall k | 0 <= k < |cells| ensures cells[k].Finite? {
          assert kind.Time? ==> cells[k] != NaN;
        }
      }
      LeastIs(cells);
    }
  }

  // ---- lowering and pruning ----

  function Flip(rel: Rel): Rel {
    match rel
    case Less => Greater
    case LessEqual => GreaterEqual
    case Greater => Less
    case GreaterEqual => LessEqual
    case _ => rel
  }

  /** `predicate_bounds`: `col <op> scalar`, or the same written the other way round. */
  function PredicateBounds(e: Expr<Value>): Option<(string, Rel, Num)> {
    if !e.Compare? || e.rel == NotEqual then None
    else if e.left.Node? && e.left.e.Col? && e.right.Lit? && e.right.v.Number? then
      Some((e.left.e.name, e.rel, e.right.v.n))
    else if e.right.Node? && e.right.e.Col? && e.left.Lit? && e.left.v.Number? then
      Some((e.right.e.name, Flip(e.rel), e.left.v.n))
    else None
  }

  /** A comparison of this column with this number, either way round. */
  predicate Bounded(e: Expr<Value>, name: string, rel: Rel, scalar: Num) {
    && e.Compare? && e.rel == rel != NotEqual
    && ((e.left == Node(Col(name)) && e.right == Lit(Number(scalar))) ||
        (e.left == Lit(Number(scalar)) && e.right == Node(Col(name))))
  }

  /** Exactly these comparisons are lowered, to that column and that number. */
  lemma BoundsExactly(e: Expr<Value>)
    ensures PredicateBounds(e).Some? <==> exists name, rel, scalar :: Bounded(e, name, rel, scalar)
    ensures forall name, rel, scalar :: Bounded(e, name, rel, scalar) ==>
              PredicateBounds(e).Some? && PredicateBounds(e).value.0 == name && PredicateBounds(e).value.2 == scalar
  {
    if PredicateBounds(e).Some? {
      assert Bounded(e, PredicateBounds(e).value.0, e.rel, PredicateBounds(e).value.2);
    }
  }

  /** The lowered comparison says, of every row, what the expression says. */
  lemma BoundsMean(s: Semantics<Value>, e: Expr<Value>, row: map<string, Value>)
    requires PredicateBounds(e).Some? && Names(e) <= row.Keys && Compares(s)
    requires row.Keys >= {PredicateBounds(e).value.0} && row[PredicateBounds(e).value.0].Number?
    ensures var (name, rel, scalar) := PredicateBounds(e).value;
            && Names(e) == {name} && RowValue(s, e, row) == Embed(Holds(rel, row[name].n, scalar))
            && RowValue(s, e, row) == Number(Finite(if Holds(rel, row[name].n, scalar) then 1.0 else 0.0))
  {
    var (name, rel, scalar) := PredicateBounds(e).value;
    var cell := row[name].n;
    if e.left.Node? && e.left.e.Col? && e.right.Lit? {
      ColumnOperand(s, e.left, name, row);
      CompareLaw(s, e.rel, cell, scalar);
    } else {
      ColumnOperand(s, e.right, name, row);
      CompareLaw(s, e.rel, scalar, cell);
      FlipHolds(e.rel, cell, scalar);
    }
  }

  lemma ColumnOperand(s: Semantics<Value>, o: Operand<Value>, name: string, row: map<string, Value>)
    requires o == Node(Col(name)) && name in row
    ensures OperandNames(o) == {name} && OperandValue(s, o, row) == row[name]
  {
    assert Names(Expr<Value>.Col(name)) == {name};
    assert RowValue(s, Col(name), row) == row[name];
  }

  lemma CompareLaw(s: Semantics<Value>, rel: Rel, a: Num, b: Num)
    requires Compares(s)
    ensures s.apply(Relation(rel), [Number(a), Number(b)]) == Embed(Holds(rel, a, b))
  {
  }

  lemma FlipHolds(rel: Rel, a: Num, b: Num)
    ensures rel != NotEqual ==> Holds(Flip(rel), a, b) == Holds(rel, b, a)
  {
  }

  /** Whether a record with these extremes can contain a match. */
  function Keeps(rel: Rel, min: Num, max: Num, scalar: Num): bool {
    match rel
    case Greater => Holds(Greater, max, scalar)
    case GreaterEqual => Holds(GreaterEqual, max, scalar)
    case Less => Holds(Less, min, scalar)
    case LessEqual => Holds(LessEqual, min, scalar)
    case _ => Holds(LessEqual, min, scalar) && Holds(GreaterEqual, max, scalar)
  }

  function Survives(rel: Rel, stat: Stat, scalar: Num): bool { Keeps(rel, stat.min, stat.max,
                                                                     scalar) || !stat.prunable }

  /**
   A skipped record has no matching row; and, the extremes being attained, an ordering
   comparison skips a prunable record exactly if it has none.
   */
  lemma SkippedHasNoMatch(rel: Rel, stat: Stat, cells: seq<Num>, scalar: Num)
    requires Describes(stat, cells) && rel != NotEqual
    ensures !Survives(rel, stat, scalar) ==> forall k :: 0 <= k < |cells| ==> !Holds(rel, cells[k], scalar)
    ensures stat.prunable && rel != Equal ==>
              (Survives(rel, stat, scalar) <==> exists k :: 0 <= k < |cells| && Holds(rel, cells[k], scalar))
    ensures stat.prunable && rel == Equal ==>
              (Survives(rel, stat, scalar) <==> scalar.Finite? && stat.min.x <= scalar.x <= stat.max.x)
    ensures !stat.prunable ==> Survives(rel, stat, scalar)
  {
    if stat.prunable {
      var lo :| 0 <= lo < |cells| && cells[lo] == stat.min;
      var hi :| 0 <= hi < |cells| && cells[hi] == stat.max;
      if rel != Equal && Survives(rel, stat, scalar) {
        assert Holds(rel, cells[lo], scalar) || Holds(rel, cells[hi], scalar);
      }
    }
  }

  // ---- the reader ----

  /** A reader as a query sees it: each column's cells record by record. */
  datatype Store = Store(columns: map<string, seq<seq<Num>>>, starts: seq<int>, multiRecord: bool,
                         stats: Option<map<string, seq<Stat>>>)

  /** All columns share the record boundaries, and the statistics, where there are any, describe the records. */
  ghost predicate ValidStore(r: Store) {
    && (forall name :: name in r.columns ==> PrefixSums(r.starts, Lengths(r.columns[name])))
    && (r.stats.Some? ==> forall name :: name in r.stats.value && name in r.columns ==>
          Described(r.stats.value[name], r.columns[name]))
  }

  ghost predicate Described(stats: seq<Stat>, records: seq<seq<Num>>) {
    |stats| == |records| && forall k :: 0 <= k < |stats| ==> Describes(stats[k], records[k])
  }

  function Numbers(cells: seq<Num>): seq<Value> {
    seq(|cells|, k requires 0 <= k < |cells| => Number(cells[k]))
  }

  /** What `_read_query_column` reads: whole columns. */
  function Whole(r: Store): Columns<Value> {
    map name | name in r.columns :: Vector(Numbers(Flat(r.columns[name])))
  }

  function TotalRows(r: Store): int
    requires r.starts != []
  {
    r.starts[|r.starts| - 1]
  }

  lemma WholeIsStored(r: Store)
    requires ValidStore(r) && r.starts != [] && TotalRows(r) >= 0
    ensures Stored(Whole(r), TotalRows(r))
  {
    forall name | name in Whole(r) ensures |Whole(r)[name].cells| == TotalRows(r) {
      FlatLength(r.columns[name], r.starts);
    }
  }

  /** One row of the full evaluation of a lowered comparison. */
  lemma FullRow(s: Semantics<Value>, e: Expr<Value>, r: Store, i: nat)
    requires ValidStore(r) && r.starts != [] && i < TotalRows(r)
    requires PredicateBounds(e).Some? && PredicateBounds(e).value.0 in r.columns && Compares(s)
    ensures Stored(Whole(r), TotalRows(r)) && Names(e) <= Whole(r).Keys
    ensures var (name, rel, scalar) := PredicateBounds(e).value;
            && i < |Flat(r.columns[name])|
            && EvaluateMask(s, e, Whole(r), TotalRows(r)).Some?
            && |EvaluateMask(s, e, Whole(r), TotalRows(r)).value| == TotalRows(r)
            && EvaluateMask(s, e, Whole(r), TotalRows(r)).value[i]
               == Embed(Holds(rel, Flat(r.columns[name])[i], scalar))
  {
    hide EvaluateMask;
    hide Compares;
    var (name, rel, scalar) := PredicateBounds(e).value;
    WholeIsStored(r);
    FlatLength(r.columns[name], r.starts);
    BoundsNames(e);
    MaskIsRowwise(s, e, Whole(r), TotalRows(r));
    BoundsMean(s, e, Row(Whole(r), TotalRows(r), i));
  }

  lemma BoundsNames(e: Expr<Value>)
    requires PredicateBounds(e).Some?
    ensures Names(e) == {PredicateBounds(e).value.0}
    ensures Evaluable(e)
  {
    var name := PredicateBounds(e).value.0;
    assert Names(Expr<Value>.Col(name)) == {name};
  }

  // ---- the two evaluations ----

  /** The comparison over one record's cells. */
  function RecordMask(rel: Rel, cells: seq<Num>, scalar: Num): seq<Value> {
    seq(|cells|, k requires 0 <= k < |cells| => Embed(Holds(rel, cells[k], scalar)))
  }

  /** One record's stretch of the mask holds the comparison. */
  ghost predicate RecordMasked(mask: seq<Value>, start: int, cells: seq<Num>, rel: Rel, scalar: Num) {
    0 <= start && start + |cells| <= |mask| && mask[start..start + |cells|] == RecordMask(rel, cells, scalar)
  }

  /** The mask after the records before `k`: skipped records contribute only `false`. */
  ghost predicate MaskedUpTo(mask: seq<Value>, starts: seq<int>, records: seq<seq<Num>>, rel: Rel, scalar: Num, k: nat)
    requires PrefixSums(starts, Lengths(records)) && k <= |records|
  {
    && |mask| == starts[|records|]
    && (forall q :: 0 <= q < k ==> RecordMasked(mask, starts[q], records[q], rel, scalar))
    && forall i :: 0 <= i < |mask| && starts[k] <= i ==> mask[i] == Embed(false)
  }

  /** One surviving record: `mask[starts[r] : starts[r + 1]] = ufunc(column, scalar)`. */
  method FillRecord(mask: array<Value>, starts: seq<int>, ghost records: seq<seq<Num>>, rel: Rel, scalar: Num, k: nat,
                    cells: seq<Num>)
    requires PrefixSums(starts, Lengths(records)) && k < |records| && cells == records[k]
    requires MaskedUpTo(mask[..], starts, records, rel, scalar, k)
    modifies mask
    ensures MaskedUpTo(mask[..], starts, records, rel, scalar, k + 1)
  {
    PrefixSumsSorted(starts, Lengths(records));
    assert starts[k + 1] == starts[k] + Lengths(records)[k];
    forall i | 0 <= i < |cells| {
      mask[starts[k] + i] := Embed(Holds(rel, cells[i], scalar));
    }
    assert mask[..] == old(mask[..])[..starts[k]] + RecordMask(rel, cells, scalar) + old(mask[..])[starts[k + 1]..];
    FillStep(old(mask[..]), mask[..], starts, records, rel, scalar, k);
  }

  lemma FillStep(before: seq<Value>, after: seq<Value>, starts: seq<int>, records: seq<seq<Num>>, rel: Rel, scalar: Num,
                 k: nat)
    requires PrefixSums(starts, Lengths(records)) && k < |records|
    requires MaskedUpTo(before, starts, records, rel, scalar, k)
    requires 0 <= starts[k] <= starts[k + 1] <= |before|
    requires after == before[..starts[k]] + RecordMask(rel, records[k], scalar) + before[starts[k + 1]..]
    ensures MaskedUpTo(after, starts, records, rel, scalar, k + 1)
  {
    PrefixSumsSorted(starts, Lengths(records));
    assert starts[k + 1] == starts[k] + Lengths(records)[k];
    forall q | 0 <= q < k + 1 ensures RecordMasked(after, starts[q], records[q], rel, scalar) {
      if q < k {
        assert starts[q + 1] == starts[q] + Lengths(records)[q] && starts[q + 1] <= starts[k];
        assert RecordMasked(before, starts[q], records[q], rel, scalar);
        assert after[starts[q]..starts[q + 1]] == before[starts[q]..starts[q + 1]];
      } else {
        assert after[starts[k]..starts[k + 1]] == RecordMask(rel, records[k], scalar);
      }
    }
    forall i | 0 <= i < |after| && starts[k + 1] <= i ensures after[i] == Embed(false) {
      assert after[i] == before[i];
    }
  }

  /** A record that is left out keeps its `false`, which is what it means. */
  lemma SkipRecord(mask: seq<Value>, starts: seq<int>, records: seq<seq<Num>>, rel: Rel, scalar: Num, k: nat,
                   stat: Stat)
    requires PrefixSums(starts, Lengths(records)) && k < |records| && MaskedUpTo(mask, starts, records, rel, scalar, k)
    requires Describes(stat, records[k]) && !Survives(rel, stat, scalar) && rel != NotEqual
    ensures MaskedUpTo(mask, starts, records, rel, scalar, k + 1)
  {
    PrefixSumsSorted(starts, Lengths(records));
    assert starts[k + 1] == starts[k] + Lengths(records)[k];
    SkippedHasNoMatch(rel, stat, records[k], scalar);
    assert |mask| == starts[|records|] >= starts[k + 1];
    assert mask[starts[k]..starts[k + 1]] == RecordMask(rel, records[k], scalar);
  }

  /** Some record can be left out. */
  ghost predicate Skips(r: Store, e: Expr<Value>)
    requires ValidStore(r) && Names(e) <= r.columns.Keys
  {
    && r.multiRecord && r.stats.Some? && PredicateBounds(e).Some?
    && var (name, rel, scalar) := PredicateBounds(e).value;
       && name in r.stats.value
       && exists k :: 0 <= k < |r.stats.value[name]| && !Survives(rel, r.stats.value[name][k], scalar)
  }

  lemma MaskStart(mask: seq<Value>, starts: seq<int>, records: seq<seq<Num>>, rel: Rel, scalar: Num)
    requires PrefixSums(starts, Lengths(records)) && |mask| == starts[|records|]
    requires forall i :: 0 <= i < |mask| ==> mask[i] == Embed(false)
    ensures MaskedUpTo(mask, starts, records, rel, scalar, 0)
  {
  }

  /** `_try_skip_query_mask`: `None` where the reader reads in full instead. */
  method TrySkipQueryMask(r: Store, e: Expr<Value>) returns (result: Option<seq<Value>>)
    requires ValidStore(r) && r.starts != [] && Names(e) <= r.columns.Keys
    ensures result.Some? <==> Skips(r, e)
    ensures result.Some? ==>
              var (name, rel, scalar) := PredicateBounds(e).value;
              name in r.columns && MaskedUpTo(result.value, r.starts, r.columns[name], rel, scalar, |r.columns[name]|)
  {
    if !r.multiRecord || r.stats.None? { return None; }
    var bounds := PredicateBounds(e);
    if bounds.None? { return None; }
    var (name, rel, scalar) := bounds.value;
    BoundsNames(e);
    if name !in r.stats.value { return None; }
    var stats := r.stats.value[name];
    var records := r.columns[name];
    assert Described(stats, records);
    if forall k :: 0 <= k < |stats| ==> Survives(rel, stats[k], scalar) { return None; }
    PrefixSumsSorted(r.starts, Lengths(records));
    var mask := new Value[r.starts[|records|]](_ => Embed(false));
    MaskStart(mask[..], r.starts, records, rel, scalar);
    hide MaskedUpTo;
    for k := 0 to |records|
      invariant MaskedUpTo(mask[..], r.starts, records, rel, scalar, k)
    {
      if Survives(rel, stats[k], scalar) {
        FillRecord(mask, r.starts, records, rel, scalar, k, records[k]);
      } else {
        SkipRecord(mask[..], r.starts, records, rel, scalar, k, stats[k]);
      }
    }
    result := Some(mask[..]);
  }

  /** A finished mask is the full evaluation's. */
  lemma MaskedIsFull(s: Semantics<Value>, e: Expr<Value>, r: Store, mask: seq<Value>)
    requires ValidStore(r) && r.starts != [] && PredicateBounds(e).Some? && PredicateBounds(e).value.0 in r.columns
    requires var (name, rel, scalar) := PredicateBounds(e).value;
             MaskedUpTo(mask, r.starts, r.columns[name], rel, scalar, |r.columns[name]|)
    requires Compares(s)
    ensures Stored(Whole(r), |mask|) && Names(e) <= Whole(r).Keys
    ensures EvaluateMask(s, e, Whole(r), |mask|) == Some(mask)
  {
    hide EvaluateMask;
    hide Compares;
    hide RecordMasked;
    var (name, rel, scalar) := PredicateBounds(e).value;
    var records := r.columns[name];
    WholeIsStored(r);
    BoundsNames(e);
    MaskIsRowwise(s, e, Whole(r), |mask|);
    var full := EvaluateMask(s, e, Whole(r), |mask|).value;
    forall i | 0 <= i < |mask| ensures mask[i] == full[i] {
      FullRow(s, e, r, i);
      MaskRow(mask, r.starts, records, rel, scalar, i);
    }
    assert full == mask;
  }

  /** One row of a finished mask. */
  lemma MaskRow(mask: seq<Value>, starts: seq<int>, records: seq<seq<Num>>, rel: Rel, scalar: Num, i: nat)
    requires PrefixSums(starts, Lengths(records)) && MaskedUpTo(mask, starts, records, rel, scalar, |records|)
    requires i < |mask|
    ensures i < |Flat(records)| && mask[i] == Embed(Holds(rel, Flat(records)[i], scalar))
  {
    FlatLength(records, starts);
    var q := FlatLocate(records, starts, i);
    assert starts[q + 1] == starts[q] + Lengths(records)[q];
    assert RecordMasked(mask, starts[q], records[q], rel, scalar);
    assert mask[i] == mask[starts[q]..starts[q] + |records[q]|][i - starts[q]];
  }

  /**
   `_evaluate_query_mask` of a reader: with or without statistics, whatever is skipped, the
   mask is the full evaluation's.
   */
  method EvaluateQueryMask(s: Semantics<Value>, r: Store, e: Expr<Value>) returns (mask: Option<seq<Value>>)
    requires ValidStore(r) && r.starts != [] && TotalRows(r) >= 0 && Names(e) <= r.columns.Keys
    requires Compares(s)
    ensures Stored(Whole(r), TotalRows(r)) && mask == EvaluateMask(s, e, Whole(r), TotalRows(r))
  {
    hide EvaluateMask;
    WholeIsStored(r);
    mask := TrySkipQueryMask(r, e);
    if mask.Some? {
      MaskedIsFull(s, e, r, mask.value);
    } else {
      mask := EvaluateMask(s, e, Whole(r), TotalRows(r));
    }
  }

  // ---- statistics that come from a footer ----

  /** The parsed arrays as numbers; `decode` is the dtype's reading of an element's bytes. */
  function Decoded(decode: Cell -> Num, stats: Footer.ColumnStats): seq<Stat>
    requires |stats.mins| == |stats.maxes| == |stats.prunable|
  {
    seq(|stats.mins|, r requires 0 <= r < |stats.mins| =>
      Stat(decode(stats.mins[r]), decode(stats.maxes[r]), stats.prunable[r]))
  }

  /** What the writer keeps for a record is `column_stat` of its cells. */
  ghost predicate Recorded(decode: Cell -> Num, kept: Footer.Stat, kind: Kind, cells: seq<Num>) {
    Stat(decode(kept.min), decode(kept.max), kept.prunable) == ColumnStat(kind, cells)
  }

  /** Statistics that were computed, serialized, parsed and decoded describe the records they were computed from. */
  lemma FooterDescribes(crc: RecordIndex.Checksum, metas: seq<Footer.Meta>, strings: Footer.Strings,
                        kept: seq<Footer.RecordStats>, raw: seq<Byte>, name: seq<Byte>, kind: Kind,
                        decode: Cell -> Num, records: seq<seq<Num>>)
    requires Footer.AllCovered(metas, strings, kept) && Footer.Packable(metas, |kept|)
    requires Footer.Sized(metas, strings, kept) && Footer.Named(metas, name)
    requires raw == Footer.FooterBytes(crc, metas, strings, kept) && |kept| == |records|
    requires forall r :: 0 <= r < |kept| ==>
               name in kept[r] && Typed(kind, records[r]) && Recorded(decode, kept[r][name], kind, records[r])
    ensures Footer.ParseStats(crc, strings, raw).Some? && name in Footer.ParseStats(crc, strings, raw).value.0
    ensures var parsed := Footer.ParseStats(crc, strings, raw).value.0[name];
            |parsed.mins| == |parsed.maxes| == |parsed.prunable| && Described(Decoded(decode, parsed), records)
  {
    hide Footer.ParseStats;
    Footer.FooterRecovered(crc, metas, strings, kept, raw, name);
    var stats := Decoded(decode, Footer.StatsOf(name, kept));
    forall r | 0 <= r < |records| ensures Describes(stats[r], records[r]) {
      assert Recorded(decode, kept[r][name], kind, records[r]);
      ColumnStatDescribes(kind, records[r]);
    }
  }
}
