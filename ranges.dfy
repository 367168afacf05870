/** The `@Range` constraint: bound comparisons on numbers, string lengths and
    collection sizes, and the choice of message. */
module Ranges {
  import opened Types

  /** `a <= b` in the order NegInf < every Fin < PosInf. */
  predicate AtMost(a: Bound, b: Bound) {
    match (a, b)
    case (NegInf, _) => true
    case (_, PosInf) => true
    case (Fin(x), Fin(y)) => x <= y
    case _ => false
  }

  /** `x` lies in the closed interval `[from, to]`. */
  predicate Within(x: int, from: Bound, to: Bound) {
    AtMost(from, Fin(x)) && AtMost(Fin(x), to)
  }

  /** The guard as the source writes it: `x < from || x > to`. */
  predicate OutOfRange(x: int, from: Bound, to: Bound) {
    (match from case NegInf => false case Fin(n) => x < n case PosInf => true) ||
    (match to case NegInf => true case Fin(n) => x > n case PosInf => false)
  }

  /** `Math.max(0, from)`, the lower bound used for lengths and sizes. */
  function ClampLower(from: Bound): (r: Bound)
    ensures AtMost(Fin(0), r) && AtMost(from, r)
    ensures r == from || r == Fin(0)
  {
    match from
    case NegInf => Fin(0)
    case Fin(n) => if n < 0 then Fin(0) else from
    case PosInf => from
  }

  /** The reason for a number `x` outside `[from, to]` is fixed by the bounds:
      only the upper bound when `from` is infinite, only the lower bound when
      `to` is infinite, both bounds otherwise; each names the bound crossed. */
  predicate NumberReasonFits(reason: Reason, x: int, from: Bound, to: Bound) {
    match reason
    case ValueLesserThan(t) => t == to && from.IsInfinite() && !AtMost(Fin(x), to)
    case ValueGreaterThan(f) => f == from && f.Fin? && to.IsInfinite() && !AtMost(from, Fin(x))
    case ValueBetween(f, t) => f == from && t == to && f.Fin? && t.Fin? && !Within(x, from, to)
    case _ => false
  }

  /** The range check of one field: `Ok(None)` when it does not apply or
      passes, `Ok(Some(reason))` when it is violated, and the unsupported-field
      exception for a value that is neither a number, a string nor a
      collection. */
  function CheckRange(range: Option<RangeDecl>, value: Value, path: string): (r: Result<Option<Reason>>)
    ensures range.None? || value.Null? ==> r == Ok(None)
    ensures range.Some? && value.Num? ==>
      r.Ok? && (r.value.Some? <==> !Within(value.n, range.value.from, range.value.to))
    ensures range.Some? && value.Num? && r.Ok? && r.value.Some? &&
            range.value.from != PosInf && range.value.to != NegInf ==>
      NumberReasonFits(r.value.value, value.n, range.value.from, range.value.to)
    ensures range.Some? && value.Num? && r.Ok? && r.value.Some? ==>
      r.value.value == if range.value.from.IsInfinite() then ValueLesserThan(range.value.to)
                       else if range.value.to.IsInfinite() then ValueGreaterThan(range.value.from)
                       else ValueBetween(range.value.from, range.value.to)
    ensures range.Some? && value.Str? ==>
      r.Ok? && (r.value.Some? <==> !Within(value.length, ClampLower(range.value.from), range.value.to))
    ensures range.Some? && value.Str? && r.Ok? && r.value.Some? ==>
      r.value.value == if range.value.to.IsInfinite() then StringAtLeast(ClampLower(range.value.from))
                       else StringBetween(ClampLower(range.value.from), range.value.to)
    ensures range.Some? && value.Coll? ==>
      r.Ok? && (r.value.Some? <==> !Within(|value.elems|, ClampLower(range.value.from), range.value.to))
    ensures range.Some? && value.Coll? && r.Ok? && r.value.Some? ==>
      r.value.value == if range.value.to.IsInfinite() then CollectionAtLeast(ClampLower(range.value.from))
                       else CollectionBetween(ClampLower(range.value.from), range.value.to)
    ensures range.Some? && (value.Iter? || value.Obj? || value.Other?) ==> r == Err(UnsupportedField(path, RangeKind))
  {
    if range.None? || value.Null? then Ok(None)
    else
      var from, to := range.value.from, range.value.to;
      match value
      case Num(n) =>
        if !OutOfRange(n, from, to) then Ok(None)
        else if from.IsInfinite() then Ok(Some(ValueLesserThan(to)))
        else if to.IsInfinite() then Ok(Some(ValueGreaterThan(from)))
        else Ok(Some(ValueBetween(from, to)))
      case Str(len) =>
        var lower := ClampLower(from);
        if !OutOfRange(len, lower, to) then Ok(None)
        else if to.IsInfinite() then Ok(Some(StringAtLeast(lower)))
        else Ok(Some(StringBetween(lower, to)))
      case Coll(es) =>
        var lower := ClampLower(from);
        if !OutOfRange(|es|, lower, to) then Ok(None)
        else if to.IsInfinite() then Ok(Some(CollectionAtLeast(lower)))
        else Ok(Some(CollectionBetween(lower, to)))
      case _ => Err(UnsupportedField(path, RangeKind))
  }

  /** A number above a range with two finite bounds is reported with both
      bounds, not only the one it crossed: 6 against `[2, 5]`. */
  lemma AboveFiniteRange(path: string)
    ensures CheckRange(Some(RangeDecl(Fin(2), Fin(5))), Num(6), path) == Ok(Some(ValueBetween(Fin(2), Fin(5))))
    ensures !NumberReasonFits(ValueLesserThan(Fin(5)), 6, Fin(2), Fin(5))
  {
  }
}
