/** Properties of the validator that relate several evaluations: the
    short-circuits of the `or` and `with` loops, the memoisation that makes
    self and mutual references terminate, the verdict of `@Required`, and the
    walk over the keys of a table. */
module Properties {
  import opened Types
  import opened Paths
  import opened FieldTable
  import opened Ranges
  import opened Evaluation
  import opened Traversal

  /** The `or` loop stops at the first fully valid key: keys after it are
      never looked up, so appending more keys changes nothing. */
  lemma {:induction false} OrShortCircuit(fields: map<string, FieldDecl>, prefix: string, m: Memo,
                                          ors: seq<string>, more: seq<string>, m': Memo)
    requires MemoInv(fields, m)
    requires EvalOr(fields, prefix, m, ors) == Ok((m', true))
    ensures EvalOr(fields, prefix, m, ors + more) == Ok((m', true))
    decreases |ors|
  {
    var m1 := EvalByName(fields, prefix, m, ors[0]).value;
    if !FullyValid(m1.summary[ors[0]]) {
      PendingMonotone(fields, m, m1);
      assert EvalOr(fields, prefix, m1, ors[1..]) == Ok((m', true));
      OrShortCircuit(fields, prefix, m1, ors[1..], more, m');
    }
    LookupShift(fields, prefix, m, ors, more);
  }

  /** The first lookup of a list extended at its end is the first lookup of
      the list, and the rest is the rest of the list, extended. */
  lemma LookupShift(fields: map<string, FieldDecl>, prefix: string, m: Memo, keys: seq<string>, more: seq<string>)
    requires MemoInv(fields, m) && keys != []
    ensures EvalByName(fields, prefix, m, keys[0]).Ok? ==>
      var m1 := EvalByName(fields, prefix, m, keys[0]).value;
      && EvalOr(fields, prefix, m, keys + more)
         == (if FullyValid(m1.summary[keys[0]]) then Ok((m1, true)) else EvalOr(fields, prefix, m1, keys[1..] + more))
      && EvalWith(fields, prefix, m, keys + more)
         == (if !FullyValid(m1.summary[keys[0]]) then Ok((m1, false)) else EvalWith(fields, prefix, m1, keys[1..] + more))
  {
    assert (keys + more)[0] == keys[0];
    assert (keys + more)[1..] == keys[1..] + more;
  }

  /** The `with` loop stops at the first key that is not fully valid. */
  lemma {:induction false} WithShortCircuit(fields: map<string, FieldDecl>, prefix: string, m: Memo,
                                            ws: seq<string>, more: seq<string>, m': Memo)
    requires MemoInv(fields, m)
    requires EvalWith(fields, prefix, m, ws) == Ok((m', false))
    ensures EvalWith(fields, prefix, m, ws + more) == Ok((m', false))
    decreases |ws|
  {
    var m1 := EvalByName(fields, prefix, m, ws[0]).value;
    if FullyValid(m1.summary[ws[0]]) {
      PendingMonotone(fields, m, m1);
      assert EvalWith(fields, prefix, m1, ws[1..]) == Ok((m', false));
      WithShortCircuit(fields, prefix, m1, ws[1..], more, m');
    }
    LookupShift(fields, prefix, m, ws, more);
  }

  /** When no `or` key is valid, every one of them was looked up, found and
      evaluated. */
  lemma {:induction false} OrFailureEvaluatesAll(fields: map<string, FieldDecl>, prefix: string, m: Memo,
                                                 ors: seq<string>, m': Memo)
    requires MemoInv(fields, m)
    requires EvalOr(fields, prefix, m, ors) == Ok((m', false))
    ensures forall i :: 0 <= i < |ors| ==> ors[i] in fields && ors[i] in m'.summary && !FullyValid(m'.summary[ors[i]])
    decreases |ors|
  {
    if ors != [] {
      OrFailureStep(fields, prefix, m, ors, m');
      var m1 := EvalByName(fields, prefix, m, ors[0]).value;
      OrFailureEvaluatesAll(fields, prefix, m1, ors[1..], m');
      forall i | 0 <= i < |ors|
        ensures ors[i] in fields && ors[i] in m'.summary && !FullyValid(m'.summary[ors[i]])
      {
        if i > 0 {
          assert ors[i] == ors[1..][i - 1];
        }
      }
    }
  }

  /** The first step of an `or` loop that found nothing valid. */
  lemma OrFailureStep(fields: map<string, FieldDecl>, prefix: string, m: Memo, ors: seq<string>, m': Memo)
    requires MemoInv(fields, m) && ors != []
    requires EvalOr(fields, prefix, m, ors) == Ok((m', false))
    ensures ors[0] in fields && EvalByName(fields, prefix, m, ors[0]).Ok?
    ensures var m1 := EvalByName(fields, prefix, m, ors[0]).value;
      && MemoInv(fields, m1) && ors[0] in m'.summary && !FullyValid(m'.summary[ors[0]])
      && EvalOr(fields, prefix, m1, ors[1..]) == Ok((m', false))
  {
    var m1 := EvalByName(fields, prefix, m, ors[0]).value;
    assert !FullyValid(m1.summary[ors[0]]);
    assert Extends(m1, m');
  }

  /** When every `with` key is valid, every one of them was looked up, found
      and evaluated. */
  lemma {:induction false} WithSuccessEvaluatesAll(fields: map<string, FieldDecl>, prefix: string, m: Memo,
                                                   ws: seq<string>, m': Memo)
    requires MemoInv(fields, m)
    requires EvalWith(fields, prefix, m, ws) == Ok((m', true))
    ensures forall i :: 0 <= i < |ws| ==> ws[i] in fields && ws[i] in m'.summary
    decreases |ws|
  {
    if ws != [] {
      var m1 := EvalByName(fields, prefix, m, ws[0]).value;
      WithSuccessEvaluatesAll(fields, prefix, m1, ws[1..], m');
      forall i | 0 <= i < |ws| ensures ws[i] in fields && ws[i] in m'.summary {
        if i > 0 {
          assert ws[i] == ws[1..][i - 1];
        }
      }
    }
  }

  /** A successful walk over the keys of a table evaluates every one of
      them, each at most once. */
  lemma {:induction false} WalkFieldsCovers(fields: map<string, FieldDecl>, keys: seq<string>, prefix: string,
                                            depth: int, m: Memo)
    requires depth > 0 && MemoInv(fields, m)
    requires forall k :: k in keys ==> k in fields
    requires WalkFields(fields, keys, prefix, depth, m).Ok?
    ensures forall k :: k in keys ==> k in WalkFields(fields, keys, prefix, depth, m).value.summary
    ensures NoDup(WalkFields(fields, keys, prefix, depth, m).value.trace)
    decreases |keys|
  {
    if keys != [] {
      var m1 := EvalField(fields, prefix, m, keys[0]).value;
      var errs := Descend(fields[keys[0]].value, prefix, keys[0], depth, m1.errors).value;
      WalkFieldsCovers(fields, keys[1..], prefix, depth, m1.(errors := errs));
      forall k | k in keys ensures k in WalkFields(fields, keys, prefix, depth, m).value.summary {
        if k != keys[0] {
          assert k in keys[1..];
        }
      }
    }
  }

  /** `Required` on a null value passes, and sets `Required=true`, exactly
      when some `or` key is fully valid once the lookups are done; otherwise
      exactly one "Required field." error is added, at this field's path. */
  lemma RequiredOrVerdict(fields: map<string, FieldDecl>, prefix: string, m: Memo, key: string)
    requires key in fields && key in m.summary && MemoInv(fields, m)
    requires fields[key].required.Some? && fields[key].value.Null?
    requires EvalRequired(fields, prefix, m, key).Ok?
    ensures var ors := fields[key].required.value.orFields;
            var lookup := EvalOr(fields, prefix, SetEntry(m, key, RequiredKind, false), ors);
            var r := EvalRequired(fields, prefix, m, key).value;
            && lookup.Ok?
            && (r.summary[key][RequiredKind] <==>
                  exists i :: 0 <= i < |ors| && ors[i] in lookup.value.0.summary && FullyValid(lookup.value.0.summary[ors[i]]))
            && r.errors == lookup.value.0.errors + (if lookup.value.1 then [] else [ValidationError(AsField(prefix, key), RequiredField)])
  {
    var m1 := SetEntry(m, key, RequiredKind, false);
    SetEntryProps(fields, m, key, RequiredKind, false);
    var lookup := EvalOr(fields, prefix, m1, fields[key].required.value.orFields);
    assert EvalDependents(fields, prefix, m1, key) == lookup;
    var m2 := lookup.value.0;
    assert m2.summary[key] == m1.summary[key];
    assert EvalRequired(fields, prefix, m, key) == Ok(Conclude(m2, key, AsField(prefix, key), lookup.value.1, true));
  }

  /** `Required` on a present value passes, and sets `Required=true`,
      exactly when every `with` key is fully valid once the lookups are done;
      otherwise exactly one "Validation failed due to dependents." error is
      added, at this field's path and not the dependent's. */
  lemma RequiredWithVerdict(fields: map<string, FieldDecl>, prefix: string, m: Memo, key: string)
    requires key in fields && key in m.summary && MemoInv(fields, m)
    requires fields[key].required.Some? && !fields[key].value.Null?
    requires EvalRequired(fields, prefix, m, key).Ok?
    ensures var ws := fields[key].required.value.withFields;
            var lookup := EvalWith(fields, prefix, SetEntry(m, key, RequiredKind, false), ws);
            var r := EvalRequired(fields, prefix, m, key).value;
            && lookup.Ok?
            && (r.summary[key][RequiredKind] <==>
                  forall i :: 0 <= i < |ws| ==> ws[i] in lookup.value.0.summary && FullyValid(lookup.value.0.summary[ws[i]]))
            && r.errors == lookup.value.0.errors + (if lookup.value.1 then [] else [ValidationError(AsField(prefix, key), DependentsFailed)])
  {
    var m1 := SetEntry(m, key, RequiredKind, false);
    SetEntryProps(fields, m, key, RequiredKind, false);
    var lookup := EvalWith(fields, prefix, m1, fields[key].required.value.withFields);
    assert EvalDependents(fields, prefix, m1, key) == lookup;
    var m2 := lookup.value.0;
    assert m2.summary[key] == m1.summary[key];
    assert EvalRequired(fields, prefix, m, key) == Ok(Conclude(m2, key, AsField(prefix, key), lookup.value.1, false));
  }

  /** A fresh key whose Range check does not apply or passes goes straight
      on to its Required check. */
  lemma FreshWithoutRangeViolation(fields: map<string, FieldDecl>, prefix: string, m: Memo, key: string)
    requires key in fields && MemoInv(fields, m) && key !in m.summary
    requires CheckRange(fields[key].range, fields[key].value, AsField(prefix, key)) == Ok(None)
    ensures MemoInv(fields, Begin(m, key)) && key in Begin(m, key).summary
    ensures EvalField(fields, prefix, m, key) == EvalRequired(fields, prefix, Begin(m, key), key)
  {
    BeginProps(fields, m, key);
  }

  /** A Required check whose lookups fail reports one error at the field's
      own path, and leaves its `Required=false` in place. */
  lemma RequiredFails(fields: map<string, FieldDecl>, prefix: string, m: Memo, key: string, m2: Memo)
    requires key in fields && key in m.summary && MemoInv(fields, m) && fields[key].required.Some?
    requires MemoInv(fields, SetEntry(m, key, RequiredKind, false))
    requires EvalDependents(fields, prefix, SetEntry(m, key, RequiredKind, false), key) == Ok((m2, false))
    ensures EvalRequired(fields, prefix, m, key)
         == Ok(AddError(m2, AsField(prefix, key), if fields[key].value.Null? then RequiredField else DependentsFailed))
  {
  }

  /** A single lookup of a key that is not fully valid fails both loops. */
  lemma SingleLookupFails(fields: map<string, FieldDecl>, prefix: string, m: Memo, other: string, m': Memo)
    requires MemoInv(fields, m)
    requires EvalByName(fields, prefix, m, other) == Ok(m') && !FullyValid(m'.summary[other])
    ensures EvalOr(fields, prefix, m, [other]) == Ok((m', false))
    ensures EvalWith(fields, prefix, m, [other]) == Ok((m', false))
  {
    assert [other][1..] == [];
  }

  /** A fresh key whose Range check passes and whose Required check looks up
      one key, found not fully valid, is reported once at its own path. */
  lemma FailsThroughDependent(fields: map<string, FieldDecl>, prefix: string, m: Memo, key: string,
                              other: string, m': Memo)
    requires key in fields && MemoInv(fields, m) && key !in m.summary
    requires CheckRange(fields[key].range, fields[key].value, AsField(prefix, key)) == Ok(None)
    requires fields[key].required.Some?
    requires if fields[key].value.Null? then fields[key].required.value.orFields == [other]
             else fields[key].required.value.withFields == [other]
    requires EvalByName(fields, prefix, SetEntry(Begin(m, key), key, RequiredKind, false), other) == Ok(m')
    requires !FullyValid(m'.summary[other])
    ensures EvalField(fields, prefix, m, key)
         == Ok(AddError(m', AsField(prefix, key), if fields[key].value.Null? then RequiredField else DependentsFailed))
  {
    var m1 := Begin(m, key);
    var s1 := SetEntry(m1, key, RequiredKind, false);
    calc {
      EvalField(fields, prefix, m, key);
    == { FreshWithoutRangeViolation(fields, prefix, m, key); }
      EvalRequired(fields, prefix, m1, key);
    == { BeginProps(fields, m, key);
         SetEntryProps(fields, m1, key, RequiredKind, false);
         SingleLookupFails(fields, prefix, s1, other, m');
         RequiredFails(fields, prefix, m1, key, m'); }
      Ok(AddError(m', AsField(prefix, key), if fields[key].value.Null? then RequiredField else DependentsFailed));
    }
  }

  /** A field whose `@Required(or = ...)` names only itself, holding null,
      sees its own pre-set `Required=false` and is reported once as
      "Required field.", without looping. */
  lemma SelfOrFails(fields: map<string, FieldDecl>, prefix: string, m: Memo, key: string)
    requires key in fields && MemoInv(fields, m) && key !in m.summary
    requires fields[key].value.Null? && fields[key].required.Some? && fields[key].required.value.orFields == [key]
    ensures EvalField(fields, prefix, m, key) == Ok(Memo(
      m.summary[key := map[RequiredKind := false]],
      m.errors + [ValidationError(AsField(prefix, key), RequiredField)],
      m.trace + [key]))
  {
    var s1 := SetEntry(Begin(m, key), key, RequiredKind, false);
    assert s1.summary == m.summary[key := map[RequiredKind := false]];
    assert s1.summary[key][RequiredKind] == false;
    BeginProps(fields, m, key);
    SetEntryProps(fields, Begin(m, key), key, RequiredKind, false);
    assert EvalByName(fields, prefix, s1, key) == Ok(s1);
    FailsThroughDependent(fields, prefix, m, key, key, s1);
  }

  /** Two fields that require each other `with` a present value: evaluating
      the first evaluates the second once, each sees the other's pre-set
      `Required=false`, and each is reported once as "Validation failed due
      to dependents.", the inner one first. */
  lemma MutualWithTerminates(fields: map<string, FieldDecl>, prefix: string, m: Memo, a: string, b: string)
    requires a != b && a in fields && b in fields && MemoInv(fields, m)
    requires a !in m.summary && b !in m.summary
    requires fields[a].range.None? && !fields[a].value.Null?
    requires fields[a].required.Some? && fields[a].required.value.withFields == [b]
    requires fields[b].range.None? && !fields[b].value.Null?
    requires fields[b].required.Some? && fields[b].required.value.withFields == [a]
    ensures EvalField(fields, prefix, m, a) == Ok(Memo(
      m.summary[a := map[RequiredKind := false]][b := map[RequiredKind := false]],
      m.errors + [ValidationError(AsField(prefix, b), DependentsFailed),
                  ValidationError(AsField(prefix, a), DependentsFailed)],
      m.trace + [a, b]))
  {
    MutualFail(fields, prefix, m, a, b);
  }

  /** Two fields that require each other `or` each other, both null: the same
      termination, each reported once as "Required field.". */
  lemma MutualOrTerminates(fields: map<string, FieldDecl>, prefix: string, m: Memo, a: string, b: string)
    requires a != b && a in fields && b in fields && MemoInv(fields, m)
    requires a !in m.summary && b !in m.summary
    requires fields[a].value.Null? && fields[a].required.Some? && fields[a].required.value.orFields == [b]
    requires fields[b].value.Null? && fields[b].required.Some? && fields[b].required.value.orFields == [a]
    ensures EvalField(fields, prefix, m, a) == Ok(Memo(
      m.summary[a := map[RequiredKind := false]][b := map[RequiredKind := false]],
      m.errors + [ValidationError(AsField(prefix, b), RequiredField),
                  ValidationError(AsField(prefix, a), RequiredField)],
      m.trace + [a, b]))
  {
    MutualFail(fields, prefix, m, a, b);
  }

  /** The reason reported for a failed Required check on a field holding `v`. */
  function FailReason(v: Value): Reason {
    if v.Null? then RequiredField else DependentsFailed
  }

  /** Two fields whose Required checks look each other up, both through `or`
      (null values) or both through `with` (present values). */
  lemma MutualFail(fields: map<string, FieldDecl>, prefix: string, m: Memo, a: string, b: string)
    requires a != b && a in fields && b in fields && MemoInv(fields, m)
    requires a !in m.summary && b !in m.summary
    requires fields[a].value.Null? <==> fields[b].value.Null?
    requires fields[a].value.Null? || (fields[a].range.None? && fields[b].range.None?)
    requires fields[a].required.Some? && fields[b].required.Some?
    requires if fields[a].value.Null? then fields[a].required.value.orFields == [b]
             else fields[a].required.value.withFields == [b]
    requires if fields[b].value.Null? then fields[b].required.value.orFields == [a]
             else fields[b].required.value.withFields == [a]
    ensures EvalField(fields, prefix, m, a) == Ok(Memo(
      m.summary[a := map[RequiredKind := false]][b := map[RequiredKind := false]],
      m.errors + [ValidationError(AsField(prefix, b), FailReason(fields[a].value)),
                  ValidationError(AsField(prefix, a), FailReason(fields[a].value))],
      m.trace + [a, b]))
  {
    MutualFailEval(fields, prefix, m, a, b);
    MutualShape(m, a, b, AsField(prefix, a), AsField(prefix, b), FailReason(fields[a].value));
  }

  /** The memo after `a` and then `b` begin, both set `Required=false`, and
      each reports one error, `b` first. */
  lemma MutualShape(m: Memo, a: string, b: string, pathA: string, pathB: string, reason: Reason)
    requires a != b
    ensures AddError(AddError(SetEntry(Begin(SetEntry(Begin(m, a), a, RequiredKind, false), b), b, RequiredKind, false),
                              pathB, reason), pathA, reason)
         == Memo(m.summary[a := map[RequiredKind := false]][b := map[RequiredKind := false]],
                 m.errors + [ValidationError(pathB, reason), ValidationError(pathA, reason)],
                 m.trace + [a, b])
  {
    var r := AddError(AddError(SetEntry(Begin(SetEntry(Begin(m, a), a, RequiredKind, false), b), b, RequiredKind, false),
                               pathB, reason), pathA, reason);
    assert r.trace == m.trace + [a] + [b];
    assert r.errors == m.errors + [ValidationError(pathB, reason)] + [ValidationError(pathA, reason)];
  }

  /** `MutualFail` as a composition of memo updates: `a` begins, `b` begins
      and fails on the pending `a`, then `a` fails on `b`. */
  lemma MutualFailEval(fields: map<string, FieldDecl>, prefix: string, m: Memo, a: string, b: string)
    requires a != b && a in fields && b in fields && MemoInv(fields, m)
    requires a !in m.summary && b !in m.summary
    requires fields[a].value.Null? <==> fields[b].value.Null?
    requires fields[a].value.Null? || (fields[a].range.None? && fields[b].range.None?)
    requires fields[a].required.Some? && fields[b].required.Some?
    requires if fields[a].value.Null? then fields[a].required.value.orFields == [b]
             else fields[a].required.value.withFields == [b]
    requires if fields[b].value.Null? then fields[b].required.value.orFields == [a]
             else fields[b].required.value.withFields == [a]
    ensures EvalField(fields, prefix, m, a)
         == Ok(AddError(AddError(SetEntry(Begin(SetEntry(Begin(m, a), a, RequiredKind, false), b), b, RequiredKind, false),
                                 AsField(prefix, b), FailReason(fields[a].value)),
                        AsField(prefix, a), FailReason(fields[a].value)))
  {
    var reason := FailReason(fields[a].value);
    var sa := SetEntry(Begin(m, a), a, RequiredKind, false);
    var b3 := AddError(SetEntry(Begin(sa, b), b, RequiredKind, false), AsField(prefix, b), reason);
    BeginProps(fields, m, a);
    SetEntryProps(fields, Begin(m, a), a, RequiredKind, false);
    assert sa.summary[a][RequiredKind] == false;
    DependsOnPending(fields, prefix, sa, b, a);
    assert b3.summary[b][RequiredKind] == false;
    FailsThroughDependent(fields, prefix, m, a, b, b3);
  }

  /** A field whose single `or` or `with` key is still being evaluated (its
      `Required=false` is set) fails, without evaluating that key again. */
  lemma DependsOnPending(fields: map<string, FieldDecl>, prefix: string, m: Memo, key: string, other: string)
    requires key in fields && MemoInv(fields, m) && key !in m.summary
    requires other in m.summary && RequiredKind in m.summary[other] && !m.summary[other][RequiredKind]
    requires fields[key].value.Null? || fields[key].range.None?
    requires fields[key].required.Some?
    requires if fields[key].value.Null? then fields[key].required.value.orFields == [other]
             else fields[key].required.value.withFields == [other]
    ensures EvalField(fields, prefix, m, key)
         == Ok(AddError(SetEntry(Begin(m, key), key, RequiredKind, false), AsField(prefix, key), FailReason(fields[key].value)))
  {
    var s1 := SetEntry(Begin(m, key), key, RequiredKind, false);
    BeginProps(fields, m, key);
    SetEntryProps(fields, Begin(m, key), key, RequiredKind, false);
    assert other in fields;
    assert s1.summary[other][RequiredKind] == false;
    assert EvalByName(fields, prefix, s1, other) == Ok(s1);
    FailsThroughDependent(fields, prefix, m, key, other, s1);
  }
}
