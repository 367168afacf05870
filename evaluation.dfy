/** The evaluation of the constraints of the fields of one bean, memoised per
    traversal level, with the `or` / `with` lookups between sibling fields.
    These functions are the specification that `Validator.ValidateField`
    is proved against. */
module Evaluation {
  import opened Types
  import opened Paths
  import opened Ranges

  /** The state of one level: `validationSummary`, `validationErrors`, and,
      as instrumentation, the keys whose constraints were evaluated, in the
      order their evaluation began. */
  datatype Memo = Memo(summary: map<string, Summary>, errors: seq<ValidationError>, trace: seq<string>)

  /** Every summary belongs to a field of the table, and the trace lists each
      summarised key exactly once: a key is evaluated at most once per level. */
  ghost predicate MemoInv(fields: map<string, FieldDecl>, m: Memo) {
    && m.summary.Keys <= fields.Keys
    && NoDup(m.trace)
    && forall k :: k in m.trace <==> k in m.summary
  }

  /** `m'` follows `m` except for the entry of `own`: every other summary
      already present is untouched, errors and trace only grow. */
  predicate ExtendsExcept(m: Memo, m': Memo, own: Option<string>) {
    && m.summary.Keys <= m'.summary.Keys
    && (forall k :: k in m.summary && Some(k) != own ==> m'.summary[k] == m.summary[k])
    && m.errors <= m'.errors
    && m.trace <= m'.trace
  }

  predicate Extends(m: Memo, m': Memo) {
    ExtendsExcept(m, m', None)
  }

  /** The number of fields of the level not yet evaluated. */
  function Pending(fields: map<string, FieldDecl>, m: Memo): nat {
    |fields.Keys - m.summary.Keys|
  }

  lemma SubsetCard<T>(a: set<T>, b: set<T>)
    requires a <= b
    ensures |a| <= |b|
  {
    assert b == a + (b - a);
  }

  lemma PendingMonotone(fields: map<string, FieldDecl>, m: Memo, m': Memo)
    requires m.summary.Keys <= m'.summary.Keys
    ensures Pending(fields, m') <= Pending(fields, m)
  {
    SubsetCard(fields.Keys - m'.summary.Keys, fields.Keys - m.summary.Keys);
  }

  lemma PendingShrinks(fields: map<string, FieldDecl>, m: Memo, key: string, m': Memo)
    requires key in fields && key !in m.summary && m'.summary.Keys == m.summary.Keys + {key}
    ensures Pending(fields, m') < Pending(fields, m)
  {
    var before := fields.Keys - m.summary.Keys;
    assert fields.Keys - m'.summary.Keys == before - {key};
  }

  /** `fieldSummary.put(kind, b)` on the summary of `key`. */
  function SetEntry(m: Memo, key: string, kind: ConstraintKind, b: bool): Memo
    requires key in m.summary
  {
    m.(summary := m.summary[key := m.summary[key][kind := b]])
  }

  /** `validationErrors.add(new ValidationError(path, reason))`. */
  function AddError(m: Memo, path: string, reason: Reason): Memo {
    m.(errors := m.errors + [ValidationError(path, reason)])
  }

  /** `validationSummary.put(key, new HashMap<>())`, noted in the trace. */
  function Begin(m: Memo, key: string): Memo {
    m.(summary := m.summary[key := map[]], trace := m.trace + [key])
  }

  /** The effect of a Range violation: `Range=false` and one error. */
  function RecordRange(m: Memo, key: string, path: string, violation: Option<Reason>): Memo
    requires key in m.summary
  {
    if violation.Some? then AddError(SetEntry(m, key, RangeKind, false), path, violation.value) else m
  }

  lemma BeginProps(fields: map<string, FieldDecl>, m: Memo, key: string)
    requires key in fields && key !in m.summary && MemoInv(fields, m)
    ensures MemoInv(fields, Begin(m, key)) && Extends(m, Begin(m, key))
    ensures Pending(fields, Begin(m, key)) < Pending(fields, m)
  {
    BeginInv(fields, m, key);
    BeginExtends(m, key);
    PendingShrinks(fields, m, key, Begin(m, key));
  }

  lemma BeginInv(fields: map<string, FieldDecl>, m: Memo, key: string)
    requires key in fields && key !in m.summary && MemoInv(fields, m)
    ensures MemoInv(fields, Begin(m, key))
  {
    BeginNoDup(m.trace, key);
    var m' := Begin(m, key);
    assert forall k :: k in m'.trace <==> k in m.trace || k == key;
  }

  lemma BeginExtends(m: Memo, key: string)
    requires key !in m.summary
    ensures Extends(m, Begin(m, key)) && Begin(m, key).summary.Keys == m.summary.Keys + {key}
  {
  }

  lemma BeginNoDup(trace: seq<string>, key: string)
    requires NoDup(trace) && key !in trace
    ensures NoDup(trace + [key])
  {
    var t := trace + [key];
    forall i, j | 0 <= i < j < |t| ensures t[i] != t[j] {
      if j == |trace| {
        assert t[i] == trace[i];
      }
    }
  }

  lemma SetEntryProps(fields: map<string, FieldDecl>, m: Memo, key: string, kind: ConstraintKind, b: bool)
    requires key in m.summary && MemoInv(fields, m)
    ensures MemoInv(fields, SetEntry(m, key, kind, b)) && ExtendsExcept(m, SetEntry(m, key, kind, b), Some(key))
    ensures SetEntry(m, key, kind, b).summary.Keys == m.summary.Keys
  {
  }

  lemma AddErrorProps(fields: map<string, FieldDecl>, m: Memo, path: string, reason: Reason)
    requires MemoInv(fields, m)
    ensures MemoInv(fields, AddError(m, path, reason)) && Extends(m, AddError(m, path, reason))
    ensures AddError(m, path, reason).summary == m.summary
  {
  }

  lemma RecordRangeProps(fields: map<string, FieldDecl>, m: Memo, key: string, path: string, violation: Option<Reason>)
    requires key in m.summary && MemoInv(fields, m)
    ensures MemoInv(fields, RecordRange(m, key, path, violation))
    ensures ExtendsExcept(m, RecordRange(m, key, path, violation), Some(key))
    ensures RecordRange(m, key, path, violation).summary.Keys == m.summary.Keys
  {
    if violation.Some? {
      SetEntryProps(fields, m, key, RangeKind, false);
      AddErrorProps(fields, SetEntry(m, key, RangeKind, false), path, violation.value);
    }
  }

  lemma ExtendsTrans(a: Memo, b: Memo, c: Memo, own: Option<string>)
    requires ExtendsExcept(a, b, own) && ExtendsExcept(b, c, own)
    ensures ExtendsExcept(a, c, own)
  {
  }

  lemma ExtendsWeaken(a: Memo, b: Memo, own: string)
    requires Extends(a, b)
    ensures ExtendsExcept(a, b, Some(own))
  {
  }

  /** The own entry of a key that was absent before does not count. */
  lemma ExtendsAfterBegin(m: Memo, key: string, r: Memo)
    requires key !in m.summary
    requires ExtendsExcept(Begin(m, key), r, Some(key))
    ensures Extends(m, r)
  {
  }

  /** `validateField(field, key, value)`: nothing when `key` already has a
      summary; otherwise its summary is created empty first, then its
      constraints are evaluated. */
  function EvalField(fields: map<string, FieldDecl>, prefix: string, m: Memo, key: string): (r: Result<Memo>)
    requires key in fields && MemoInv(fields, m)
    ensures key in m.summary ==> r == Ok(m)
    ensures r.Ok? ==> MemoInv(fields, r.value) && Extends(m, r.value) && key in r.value.summary
    ensures r.Ok? && key !in m.summary ==> r.value.trace[|m.trace|] == key
    decreases Pending(fields, m), 0, 0
  {
    if key in m.summary then Ok(m)
    else
      BeginProps(fields, m, key);
      var r := EvalConstraints(fields, prefix, Begin(m, key), key);
      if r.Ok? then
        ExtendsAfterBegin(m, key, r.value);
        r
      else r
  }

  /** The Range part, then the Required part, of `validateField` once the
      summary of `key` exists. */
  function EvalConstraints(fields: map<string, FieldDecl>, prefix: string, m: Memo, key: string): (r: Result<Memo>)
    requires key in fields && key in m.summary && MemoInv(fields, m)
    ensures r.Ok? ==> MemoInv(fields, r.value) && ExtendsExcept(m, r.value, Some(key))
    decreases Pending(fields, m), 5, 0
  {
    var path := AsField(prefix, key);
    var range := EvalRange(m, key, fields[key], path);
    if range.Err? then Err(range.error)
    else
      RangeProps(fields, m, key, fields[key], path);
      var m2 := range.value;
      var r := EvalRequired(fields, prefix, m2, key);
      if r.Ok? then
        ExtendsTrans(m, m2, r.value, Some(key));
        r
      else r
  }

  /** The Range part of `validateField` for the field `f` of `key`: the
      unsupported-field exception, or the state after its violation, if
      any, is recorded. */
  function EvalRange(m: Memo, key: string, f: FieldDecl, path: string): Result<Memo>
    requires key in m.summary
  {
    match CheckRange(f.range, f.value, path)
    case Err(e) => Err(e)
    case Ok(violation) => Ok(RecordRange(m, key, path, violation))
  }

  lemma RangeProps(fields: map<string, FieldDecl>, m: Memo, key: string, f: FieldDecl, path: string)
    requires key in m.summary && MemoInv(fields, m)
    ensures EvalRange(m, key, f, path).Ok? ==> MemoInv(fields, EvalRange(m, key, f, path).value)
    ensures EvalRange(m, key, f, path).Ok? ==> ExtendsExcept(m, EvalRange(m, key, f, path).value, Some(key))
    ensures EvalRange(m, key, f, path).Ok? ==> EvalRange(m, key, f, path).value.summary.Keys == m.summary.Keys
  {
    var check := CheckRange(f.range, f.value, path);
    if check.Ok? {
      RecordRangeProps(fields, m, key, path, check.value);
    }
  }

  /** `EvalConstraints` step by step: Range at `path`, then Required on the
      state Range left. */
  lemma ConstraintSteps(fields: map<string, FieldDecl>, prefix: string, m: Memo, key: string, f: FieldDecl, path: string)
    requires key in fields && key in m.summary && MemoInv(fields, m)
    requires f == fields[key] && path == AsField(prefix, key)
    ensures EvalRange(m, key, f, path).Ok? ==> MemoInv(fields, EvalRange(m, key, f, path).value)
    ensures EvalRange(m, key, f, path).Err? ==> EvalConstraints(fields, prefix, m, key) == EvalRange(m, key, f, path)
    ensures EvalRange(m, key, f, path).Ok? ==>
      EvalConstraints(fields, prefix, m, key) == EvalRequired(fields, prefix, EvalRange(m, key, f, path).value, key)
  {
    RangeProps(fields, m, key, f, path);
  }

  /** The Required part of `validateField`, run once the summary of `key`
      exists: the summary entry is set to false before any dependency is
      looked up, and set to true only when the constraint passes. */
  function EvalRequired(fields: map<string, FieldDecl>, prefix: string, m: Memo, key: string): (r: Result<Memo>)
    requires key in fields && key in m.summary && MemoInv(fields, m)
    ensures r.Ok? ==> MemoInv(fields, r.value) && ExtendsExcept(m, r.value, Some(key))
    ensures r.Ok? && fields[key].required.Some? ==> RequiredKind in r.value.summary[key]
    decreases Pending(fields, m), 4, 0
  {
    var f := fields[key];
    if f.required.None? then Ok(m)
    else
      var path := AsField(prefix, key);
      var m1 := SetEntry(m, key, RequiredKind, false);
      SetEntryProps(fields, m, key, RequiredKind, false);
      match EvalDependents(fields, prefix, m1, key)
      case Err(e) => Err(e)
      case Ok((m2, passed)) =>
        ConcludeProps(fields, m, m1, m2, key, path, passed, f.value.Null?);
        Ok(Conclude(m2, key, path, passed, f.value.Null?))
  }

  /** A field without `@Required` leaves the state as it is. */
  lemma RequiredAbsent(fields: map<string, FieldDecl>, prefix: string, m: Memo, key: string)
    requires key in fields && key in m.summary && MemoInv(fields, m) && fields[key].required.None?
    ensures EvalRequired(fields, prefix, m, key) == Ok(m)
  {
  }

  /** `EvalRequired` for a field that carries `@Required`, step by step:
      `Required=false` gives `m1`, then the lookups, then the outcome at
      `path`. */
  lemma RequiredSteps(fields: map<string, FieldDecl>, prefix: string, m: Memo, key: string, m1: Memo,
                      path: string, isNull: bool)
    requires key in fields && key in m.summary && MemoInv(fields, m) && fields[key].required.Some?
    requires m1 == SetEntry(m, key, RequiredKind, false)
    requires path == AsField(prefix, key) && isNull == fields[key].value.Null?
    ensures MemoInv(fields, m1)
    ensures EvalRequired(fields, prefix, m, key) == Finish(EvalDependents(fields, prefix, m1, key), key, path, isNull)
  {
    SetEntryProps(fields, m, key, RequiredKind, false);
  }

  /** The lookups of `@Required` on `key`: its `or` keys when its value is
      null, its `with` keys otherwise. */
  function EvalDependents(fields: map<string, FieldDecl>, prefix: string, m: Memo, key: string)
    : (r: Result<(Memo, bool)>)
    requires key in fields && fields[key].required.Some? && MemoInv(fields, m)
    ensures r.Ok? ==> MemoInv(fields, r.value.0) && Extends(m, r.value.0)
    decreases Pending(fields, m), 3, 0
  {
    var req := fields[key].required.value;
    if fields[key].value.Null? then EvalOr(fields, prefix, m, req.orFields)
    else EvalWith(fields, prefix, m, req.withFields)
  }

  /** `validateField(name)`: the field looked up by key, or the
      invalid-field exception naming the composed path. */
  function EvalByName(fields: map<string, FieldDecl>, prefix: string, m: Memo, name: string): (r: Result<Memo>)
    requires MemoInv(fields, m)
    ensures name !in fields ==> r == Err(InvalidField(AsField(prefix, name)))
    ensures r.Ok? ==> MemoInv(fields, r.value) && Extends(m, r.value) && name in r.value.summary
    decreases Pending(fields, m), 1, 0
  {
    if name !in fields then Err(InvalidField(AsField(prefix, name)))
    else EvalField(fields, prefix, m, name)
  }

  /** One step of the `or` loop: a first key found invalid stays invalid. */
  lemma OrStep(m1: Memo, m2: Memo, ors: seq<string>, found: bool)
    requires ors != [] && ors[0] in m1.summary && !FullyValid(m1.summary[ors[0]])
    requires Extends(m1, m2)
    requires found <==> exists i :: 0 <= i < |ors| - 1 && ors[1..][i] in m2.summary && FullyValid(m2.summary[ors[1..][i]])
    ensures found <==> exists i :: 0 <= i < |ors| && ors[i] in m2.summary && FullyValid(m2.summary[ors[i]])
  {
    if exists i :: 0 <= i < |ors| && ors[i] in m2.summary && FullyValid(m2.summary[ors[i]]) {
      var i :| 0 <= i < |ors| && ors[i] in m2.summary && FullyValid(m2.summary[ors[i]]);
      assert i != 0;
      assert ors[1..][i - 1] == ors[i];
    }
    if found {
      var i :| 0 <= i < |ors| - 1 && ors[1..][i] in m2.summary && FullyValid(m2.summary[ors[1..][i]]);
      assert ors[i + 1] == ors[1..][i];
    }
  }

  /** One step of the `with` loop: a first key found valid stays valid. */
  lemma WithStep(m1: Memo, m2: Memo, ws: seq<string>, all: bool)
    requires ws != [] && ws[0] in m1.summary && FullyValid(m1.summary[ws[0]])
    requires Extends(m1, m2)
    requires all <==> forall i :: 0 <= i < |ws| - 1 ==> ws[1..][i] in m2.summary && FullyValid(m2.summary[ws[1..][i]])
    ensures all <==> forall i :: 0 <= i < |ws| ==> ws[i] in m2.summary && FullyValid(m2.summary[ws[i]])
  {
    if all {
      forall i | 0 <= i < |ws| ensures ws[i] in m2.summary && FullyValid(m2.summary[ws[i]]) {
        if i > 0 {
          assert ws[1..][i - 1] == ws[i];
        }
      }
    } else {
      var i :| 0 <= i < |ws| - 1 && !(ws[1..][i] in m2.summary && FullyValid(m2.summary[ws[1..][i]]));
      assert ws[i + 1] == ws[1..][i];
    }
  }

  /** The end of the Required part: `Required=true` when the lookups passed,
      otherwise one error, "Required field." for a null value and "Validation
      failed due to dependents." for a present one. */
  function Conclude(m: Memo, key: string, path: string, passed: bool, isNull: bool): Memo
    requires key in m.summary
  {
    if passed then SetEntry(m, key, RequiredKind, true)
    else AddError(m, path, if isNull then RequiredField else DependentsFailed)
  }

  /** The outcome of the Required part once its lookups returned `r`. */
  function Finish(r: Result<(Memo, bool)>, key: string, path: string, isNull: bool): Result<Memo>
    requires r.Ok? ==> key in r.value.0.summary
  {
    match r
    case Err(e) => Err(e)
    case Ok((m2, passed)) => Ok(Conclude(m2, key, path, passed, isNull))
  }

  lemma ConcludeProps(fields: map<string, FieldDecl>, m: Memo, m1: Memo, m2: Memo, key: string, path: string,
                      passed: bool, isNull: bool)
    requires key in m1.summary && RequiredKind in m1.summary[key]
    requires MemoInv(fields, m2) && ExtendsExcept(m, m1, Some(key)) && Extends(m1, m2)
    ensures key in m2.summary
    ensures MemoInv(fields, Conclude(m2, key, path, passed, isNull))
    ensures ExtendsExcept(m, Conclude(m2, key, path, passed, isNull), Some(key))
    ensures RequiredKind in Conclude(m2, key, path, passed, isNull).summary[key]
  {
    ExtendsWeaken(m1, m2, key);
    ExtendsTrans(m, m1, m2, Some(key));
    var r := Conclude(m2, key, path, passed, isNull);
    if passed {
      SetEntryProps(fields, m2, key, RequiredKind, true);
    } else {
      AddErrorProps(fields, m2, path, if isNull then RequiredField else DependentsFailed);
      ExtendsWeaken(m2, r, key);
    }
    ExtendsTrans(m, m2, r, Some(key));
  }

  /** The `or` loop: each key in declared order is evaluated and tested; the
      loop stops at the first fully valid one. */
  function EvalOr(fields: map<string, FieldDecl>, prefix: string, m: Memo, ors: seq<string>): (r: Result<(Memo, bool)>)
    requires MemoInv(fields, m)
    ensures r.Ok? ==> MemoInv(fields, r.value.0) && Extends(m, r.value.0)
    ensures r.Ok? ==> (r.value.1 <==>
      exists i :: 0 <= i < |ors| && ors[i] in r.value.0.summary && FullyValid(r.value.0.summary[ors[i]]))
    decreases Pending(fields, m), 2, |ors|
  {
    if ors == [] then Ok((m, false))
    else
      match EvalByName(fields, prefix, m, ors[0])
      case Err(e) => Err(e)
      case Ok(m1) =>
        if FullyValid(m1.summary[ors[0]]) then Ok((m1, true))
        else
          PendingMonotone(fields, m, m1);
          var r := EvalOr(fields, prefix, m1, ors[1..]);
          if r.Ok? then
            OrStep(m1, r.value.0, ors, r.value.1);
            ExtendsTrans(m, m1, r.value.0, None);
            r
          else r
  }

  /** The `with` loop: each key in declared order is evaluated and tested; the
      loop stops at the first one that is not fully valid. */
  function EvalWith(fields: map<string, FieldDecl>, prefix: string, m: Memo, ws: seq<string>): (r: Result<(Memo, bool)>)
    requires MemoInv(fields, m)
    ensures r.Ok? ==> MemoInv(fields, r.value.0) && Extends(m, r.value.0)
    ensures r.Ok? ==> (r.value.1 <==>
      forall i :: 0 <= i < |ws| ==> ws[i] in r.value.0.summary && FullyValid(r.value.0.summary[ws[i]]))
    decreases Pending(fields, m), 2, |ws|
  {
    if ws == [] then Ok((m, true))
    else
      match EvalByName(fields, prefix, m, ws[0])
      case Err(e) => Err(e)
      case Ok(m1) =>
        if !FullyValid(m1.summary[ws[0]]) then Ok((m1, false))
        else
          PendingMonotone(fields, m, m1);
          var r := EvalWith(fields, prefix, m1, ws[1..]);
          if r.Ok? then
            WithStep(m1, r.value.0, ws, r.value.1);
            ExtendsTrans(m, m1, r.value.0, None);
            r
          else r
  }
}
