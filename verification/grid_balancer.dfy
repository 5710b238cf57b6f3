/**
 * The grid balancer: spreads the twelve grid columns over the fields of a row,
 * and the column-span total used to detect an overflowing row.
 */
module GridBalancer {
  import opened FormModel

  /** The span the balancer gives the field at index `i` of a row of `n` fields. */
  function SpanFor(n: nat, i: nat): int
    requires n > 0
  {
    GridColumns / n + (if i < GridColumns % n then 1 else 0)
  }

  /** The fields with their spans blanked out: what a row holds apart from its layout. */
  function Erased(fields: seq<Field>): (erased: seq<Field>)
    ensures |erased| == |fields|
  {
    seq(|fields|, i requires 0 <= i < |fields| => fields[i].(colSpan := 0))
  }

  /** Same fields in the same order, possibly with other spans. */
  predicate SameExceptSpans(a: seq<Field>, b: seq<Field>)
  {
    Erased(a) == Erased(b)
  }

  /** Every field carries the span the balancer assigns to its position. */
  predicate BalancedSpans(fields: seq<Field>)
  {
    forall i :: 0 <= i < |fields| ==> fields[i].colSpan == SpanFor(|fields|, i)
  }

  /** The row after balancing: same fields, spans reassigned; an empty row stays empty. */
  function Rebalanced(fields: seq<Field>): (balanced: seq<Field>)
    ensures |balanced| == |fields|
    ensures SameExceptSpans(fields, balanced)
    ensures BalancedSpans(balanced)
    ensures fields == [] ==> balanced == []
  {
    var n := |fields|;
    var balanced := seq(n, i requires 0 <= i < n => fields[i].(colSpan := SpanFor(n, i)));
    assert forall i :: 0 <= i < n ==> Erased(balanced)[i] == Erased(fields)[i];
    balanced
  }

  /**
   * The balancer as the component runs it: a loop over the row's fields that
   * assigns each one its span in turn.
   */
  method AdjustColSpans(fields: seq<Field>) returns (balanced: seq<Field>)
    ensures balanced == Rebalanced(fields)
  {
    balanced := fields;
    var totalFields := |fields|;
    if totalFields == 0 {
      return;
    }
    var colSpan := GridColumns / totalFields;
    var remainder := GridColumns % totalFields;
    var index := 0;
    while index < totalFields
      invariant 0 <= index <= totalFields == |balanced|
      invariant forall k :: 0 <= k < index ==> balanced[k] == fields[k].(colSpan := SpanFor(totalFields, k))
      invariant forall k :: index <= k < totalFields ==> balanced[k] == fields[k]
    {
      balanced := balanced[index := balanced[index].(colSpan := colSpan + (if index < remainder then 1 else 0))];
      index := index + 1;
    }
    assert forall k :: 0 <= k < totalFields ==> balanced[k] == Rebalanced(fields)[k];
  }

  /** The sum of the spans of a row, taken from the first field to the last. */
  function SumSpans(fields: seq<Field>): int
  {
    if fields == [] then 0 else SumSpans(fields[..|fields| - 1]) + fields[|fields| - 1].colSpan
  }

  function Min(a: int, b: int): int
  {
    if a <= b then a else b
  }

  /** The first `k` balanced spans add up to `k` shares plus one per remainder column handed out so far. */
  lemma {:induction false} BalancedPrefixSum(fields: seq<Field>, k: nat)
    requires BalancedSpans(fields) && 0 < |fields| && k <= |fields|
    ensures SumSpans(fields[..k]) == k * (GridColumns / |fields|) + Min(k, GridColumns % |fields|)
  {
    if k > 0 {
      BalancedPrefixSum(fields, k - 1);
      assert fields[..k][..k - 1] == fields[..k - 1];
      assert (k - 1) * (GridColumns / |fields|) + GridColumns / |fields| == k * (GridColumns / |fields|);
    }
  }

  /** A balanced row that holds any field fills the grid exactly. */
  lemma BalancedRowFillsGrid(fields: seq<Field>)
    requires BalancedSpans(fields) && |fields| > 0
    ensures SumSpans(fields) == GridColumns
  {
    var n := |fields|;
    BalancedPrefixSum(fields, n);
    assert fields[..n] == fields;
    DivisionOfTheGrid(n);
  }

  /** The twelve columns are `n` equal shares plus the remainder. */
  lemma DivisionOfTheGrid(n: nat)
    requires n > 0
    ensures n * (GridColumns / n) + Min(n, GridColumns % n) == GridColumns
  {
    var q, m := GridColumns / n, GridColumns % n;
    assert q * n + m == GridColumns;
    assert Min(n, m) == m;
  }

  /** Balanced spans differ by at most one column. */
  lemma BalancedSpansNearlyEqual(fields: seq<Field>)
    requires BalancedSpans(fields)
    ensures forall i, j :: 0 <= i < |fields| && 0 <= j < |fields| ==> fields[i].colSpan <= fields[j].colSpan + 1
  {
  }

  /**
   * With at most twelve fields every balanced span is a real column width;
   * beyond twelve fields the fields past the twelfth get no column at all.
   */
  lemma BalancedSpansWithinGrid(fields: seq<Field>)
    requires BalancedSpans(fields)
    ensures |fields| <= GridColumns ==> forall i :: 0 <= i < |fields| ==> 1 <= fields[i].colSpan <= GridColumns
    ensures |fields| > GridColumns ==> forall i :: GridColumns <= i < |fields| ==> fields[i].colSpan == 0
  {
    var n := |fields|;
    if 0 < n <= GridColumns {
      assert GridColumns / n >= 1 && GridColumns / n <= GridColumns;
    }
  }

  /** Balancing ignores the spans a row had: a balanced row with the same fields is the balanced row. */
  lemma RebalancedDeterminedByFields(a: seq<Field>, b: seq<Field>)
    requires SameExceptSpans(a, b) && BalancedSpans(b)
    ensures Rebalanced(a) == b
  {
    var r := Rebalanced(a);
    assert |r| == |b|;
    forall i | 0 <= i < |b|
      ensures r[i] == b[i]
    {
      assert Erased(r)[i] == Erased(b)[i];
    }
  }

  /** The worked example: a row of five fields gets the spans 3, 3, 2, 2, 2. */
  lemma FiveFieldSpans(fields: seq<Field>)
    requires |fields| == 5 && BalancedSpans(fields)
    ensures [fields[0].colSpan, fields[1].colSpan, fields[2].colSpan, fields[3].colSpan, fields[4].colSpan] == [3, 3, 2, 2, 2]
  {
  }

  /** The width a field counts for in the overflow check: a span of 0 counts as 1. */
  function EffectiveSpan(field: Field): int
  {
    if field.colSpan == 0 then 1 else field.colSpan
  }

  /** The total width of a row as the overflow check measures it. */
  function TotalColSpan(fields: seq<Field>): (total: int)
    ensures (forall i :: 0 <= i < |fields| ==> fields[i].colSpan >= 0) ==> total >= |fields|
  {
    if fields == [] then 0 else TotalColSpan(fields[..|fields| - 1]) + EffectiveSpan(fields[|fields| - 1])
  }

  /** How many fields of a row have a span of 0. */
  function ZeroSpans(fields: seq<Field>): nat
  {
    if fields == [] then 0 else ZeroSpans(fields[..|fields| - 1]) + (if fields[|fields| - 1].colSpan == 0 then 1 else 0)
  }

  /** The measured total is the true sum of spans plus one for every field of span 0. */
  lemma {:induction false} TotalColSpanCountsZeroAsOne(fields: seq<Field>)
    ensures TotalColSpan(fields) == SumSpans(fields) + ZeroSpans(fields)
  {
    if fields != [] {
      TotalColSpanCountsZeroAsOne(fields[..|fields| - 1]);
    }
  }

  /** A balanced row with no span of 0 has no zero-span field to count twice. */
  lemma {:induction false} NoZeroSpans(fields: seq<Field>)
    requires forall i :: 0 <= i < |fields| ==> fields[i].colSpan != 0
    ensures ZeroSpans(fields) == 0
  {
    if fields != [] {
      NoZeroSpans(fields[..|fields| - 1]);
    }
  }

  /** A non-empty row of at most twelve fields measures exactly twelve columns once balanced. */
  lemma RebalancedRowMeasuresTwelve(fields: seq<Field>)
    requires 0 < |fields| <= GridColumns
    ensures TotalColSpan(Rebalanced(fields)) == GridColumns
  {
    var r := Rebalanced(fields);
    BalancedSpansWithinGrid(r);
    NoZeroSpans(r);
    TotalColSpanCountsZeroAsOne(r);
    BalancedRowFillsGrid(r);
  }

  /**
   * The overflow check: a row measuring more than twelve columns is
   * rebalanced, any other row is kept as it is. Either way the fields stay
   * the same, and a row of at most twelve fields fits the grid afterwards.
   */
  function Validated(fields: seq<Field>): (checked: seq<Field>)
    ensures SameExceptSpans(fields, checked)
    ensures TotalColSpan(fields) <= GridColumns ==> checked == fields
    ensures TotalColSpan(fields) > GridColumns ==> BalancedSpans(checked)
    ensures |fields| <= GridColumns ==> TotalColSpan(checked) <= GridColumns
  {
    if TotalColSpan(fields) > GridColumns then
      assert fields != [];
      if |fields| <= GridColumns then RebalancedRowMeasuresTwelve(fields); Rebalanced(fields)
      else Rebalanced(fields)
    else fields
  }
}
