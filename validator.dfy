/** The validator object itself: one walker per bean, whose fields are
    updated in place as the bean's fields are evaluated, and the public entry
    point. Each method is proved to compute what the functions of `Traversal` and
    `Evaluation` specify. */
module BeanValidator {
  import opened Types
  import opened Paths
  import opened FieldTable
  import opened Ranges
  import opened Evaluation
  import opened Traversal

  /** `validate(bean)`: one walker over the root with the full depth budget;
      the processing exception exactly when its list is non-null and
      non-empty. */
  method Validate(bean: Option<Bean>) returns (outcome: Outcome)
    ensures outcome == Verdict(Walk(bean, "", MaxValidationDepth))
    ensures bean.None? ==> outcome == Passed
  {
    var validator := new Validator(bean, MaxValidationDepth);
    var validationErrors := validator.Compute("");
    match validationErrors {
      case Err(e) =>
        outcome := StructuralError(e);
      case Ok(errors) =>
        if errors.Some? && errors.value != [] {
          outcome := ProcessingError(errors.value);
        } else {
          outcome := Passed;
        }
    }
  }

  /** The loop over the entries of one summary: a field is fully valid unless
      some constraint recorded for it is `false`. */
  method IsFullyValid(fieldSummary: Summary) returns (valid: bool)
    ensures valid <==> FullyValid(fieldSummary)
  {
    var kinds := [RangeKind, RequiredKind];
    valid := true;
    var i := 0;
    while i < |kinds|
      invariant 0 <= i <= |kinds|
      invariant valid && forall j :: 0 <= j < i && kinds[j] in fieldSummary ==> fieldSummary[kinds[j]]
    {
      if kinds[i] in fieldSummary && !fieldSummary[kinds[i]] {
        valid := false;
        break;
      }
      i := i + 1;
    }
    if valid {
      forall k | k in fieldSummary
        ensures fieldSummary[k]
      {
        assert k == kinds[0] || k == kinds[1];
      }
    }
  }

  class Validator {
    const bean: Option<Bean>
    const currentDepth: int

    /** `beanFields`, and the order in which its keys are iterated. */
    var beanFields: map<string, FieldDecl>
    var keys: seq<string>

    var validationErrors: seq<ValidationError>
    var validationSummary: map<string, Summary>
    var fieldPrefix: string

    /** The keys whose constraints were evaluated, in order. */
    ghost var trace: seq<string>

    ghost function State(): Memo
      reads this
    {
      Memo(validationSummary, validationErrors, trace)
    }

    /** This walker's state is what `spec` produced, or it failed as `spec` did. */
    ghost predicate Agrees(spec: Result<Memo>, failure: Option<Structural>)
      reads this
    {
      match spec
      case Ok(m) => failure.None? && State() == m
      case Err(e) => failure == Some(e)
    }

    constructor (bean: Option<Bean>, currentDepth: int)
      ensures this.bean == bean && this.currentDepth == currentDepth
      ensures validationErrors == [] && validationSummary == map[] && trace == []
    {
      this.bean := bean;
      this.currentDepth := currentDepth;
      validationErrors := [];
      validationSummary := map[];
      trace := [];
    }

    /** `compute(fieldPrefix)`: the depth cut-off, the null bean, the bean's
        own hook, then every field of the table in key order. */
    method Compute(prefix: string) returns (r: Result<Option<seq<ValidationError>>>)
      requires validationErrors == [] && validationSummary == map[] && trace == []
      modifies this
      decreases currentDepth, 3
      ensures r == Walk(bean, prefix, currentDepth)
    {
      if currentDepth <= 0 {
        validationErrors := validationErrors + [ValidationError(prefix, MaxDepth)];
        assert validationErrors == [ValidationError(prefix, MaxDepth)];
        return Ok(Some(validationErrors));
      }
      if bean.None? {
        return Ok(None);
      }
      var b := bean.value;
      validationErrors := validationErrors + b.hook;
      fieldPrefix := prefix;
      ResolveFields(b.fields);
      KeyOrderEnumerates(b.fields);

      assert State() == Memo(map[], b.hook, []);
      ghost var spec := WalkFields(beanFields, keys, prefix, currentDepth, State());
      var j := 0;
      while j < |keys|
        invariant 0 <= j <= |keys|
        invariant beanFields == Table(b.fields) && keys == KeyOrder(b.fields) && fieldPrefix == prefix
        invariant MemoInv(beanFields, State())
        invariant WalkFields(beanFields, keys[j..], prefix, currentDepth, State()) == spec
      {
        var fieldName := keys[j];
        var field := beanFields[fieldName];
        var fieldValue := field.value;
        ghost var pre := State();
        var failure := ValidateField(field, fieldName, fieldValue);
        if failure.Some? {
          assert keys[j..][0] == fieldName;
          assert EvalField(beanFields, prefix, pre, fieldName) == Err(failure.value);
          return Err(failure.value);
        }
        assert EvalField(beanFields, prefix, pre, fieldName) == Ok(State());
        assert keys[j..][1..] == keys[j + 1..];
        ghost var evaluated := State();
        failure := ValidateInner(fieldName, fieldValue);
        if failure.Some? {
          assert Descend(fieldValue, prefix, fieldName, currentDepth, evaluated.errors) == Err(failure.value);
          return Err(failure.value);
        }
        j := j + 1;
      }
      return Ok(Some(validationErrors));
    }

    /** The loop that builds `beanFields` from the declared fields that carry
        a constraint, keyed by alias or name. */
    method ResolveFields(fields: seq<FieldDecl>)
      modifies this`beanFields, this`keys
      ensures beanFields == Table(fields) && keys == KeyOrder(fields)
    {
      beanFields, keys := map[], [];
      var i := 0;
      while i < |fields|
        invariant 0 <= i <= |fields|
        invariant beanFields == Table(fields[..i]) && keys == KeyOrder(fields[..i])
      {
        var field := fields[i];
        assert fields[..i + 1][..i] == fields[..i];
        if Annotated(field) {
          var fieldName := field.name;
          if field.validate.Some? && !IsBlank(field.validate.value) {
            fieldName := field.validate.value;
          }
          if fieldName !in beanFields {
            keys := keys + [fieldName];
          }
          beanFields := beanFields[fieldName := field];
        }
        i := i + 1;
      }
      assert fields[..i] == fields;
    }

    /** The inner-bean region of `compute`: a nested walker for a bean value,
        one for each bean of an iterable, each with one level less. */
    method ValidateInner(fieldName: string, fieldValue: Value) returns (failure: Option<Structural>)
      requires currentDepth > 0
      modifies this`validationErrors
      decreases currentDepth, 2
      ensures match Descend(fieldValue, fieldPrefix, fieldName, currentDepth, old(validationErrors))
        case Ok(errs) => failure.None? && validationErrors == errs
        case Err(e) => failure == Some(e)
    {
      failure := None;
      if fieldValue.Obj? {
        failure := ValidateBean(fieldValue.bean, AsField(fieldPrefix, fieldName));
      }
      if fieldValue.Coll? || fieldValue.Iter? {
        failure := ValidateIterable(fieldName, fieldValue.elems);
      }
    }

    /** The loop over an iterable field: the counter advances for every
        element, and each bean is walked at its indexed path. */
    method ValidateIterable(fieldName: string, elems: seq<Value>) returns (failure: Option<Structural>)
      requires currentDepth > 0
      modifies this`validationErrors
      decreases currentDepth, 1
      ensures match WalkElements(elems, fieldPrefix, fieldName, 0, currentDepth, old(validationErrors))
        case Ok(errs) => failure.None? && validationErrors == errs
        case Err(e) => failure == Some(e)
    {
      failure := None;
      var counter := 0;
      while counter < |elems|
        invariant 0 <= counter <= |elems| && failure.None?
        invariant WalkElements(elems[counter..], fieldPrefix, fieldName, counter, currentDepth, validationErrors)
               == WalkElements(elems, fieldPrefix, fieldName, 0, currentDepth, old(validationErrors))
      {
        var subBean := elems[counter];
        if subBean.Obj? {
          failure := ValidateBean(subBean.bean, ElementPath(fieldPrefix, fieldName, counter));
          if failure.Some? {
            return;
          }
        }
        assert elems[counter..][1..] == elems[counter + 1..];
        counter := counter + 1;
      }
    }

    /** A nested walker for `b` at `path` with one level less; its errors
        are appended when it returns a list. */
    method ValidateBean(b: Bean, path: string) returns (failure: Option<Structural>)
      requires currentDepth > 0
      modifies this`validationErrors
      decreases currentDepth, 0
      ensures match Append(old(validationErrors), Walk(Some(b), path, currentDepth - 1))
        case Ok(errs) => failure.None? && validationErrors == errs
        case Err(e) => failure == Some(e)
    {
      var sub := new Validator(Some(b), currentDepth - 1);
      var errors := sub.Compute(path);
      match errors {
        case Err(e) =>
          return Some(e);
        case Ok(es) =>
          if es.Some? {
            validationErrors := validationErrors + es.value;
          }
          return None;
      }
    }

    /** `validateField(fieldName)`: the field is looked up by key. */
    method ValidateFieldByName(fieldName: string) returns (failure: Option<Structural>)
      requires MemoInv(beanFields, State())
      modifies this`validationSummary, this`validationErrors, this`trace
      decreases Pending(beanFields, State()), 1
      ensures Agrees(EvalByName(beanFields, fieldPrefix, old(State()), fieldName), failure)
    {
      if fieldName !in beanFields {
        return Some(InvalidField(AsField(fieldPrefix, fieldName)));
      }
      var field := beanFields[fieldName];
      failure := ValidateField(field, fieldName, field.value);
    }

    /** `validateField(field, fieldName, fieldValue)`. */
    method ValidateField(field: FieldDecl, fieldName: string, fieldValue: Value) returns (failure: Option<Structural>)
      requires fieldName in beanFields && field == beanFields[fieldName] && fieldValue == field.value
      requires MemoInv(beanFields, State())
      modifies this`validationSummary, this`validationErrors, this`trace
      decreases Pending(beanFields, State()), 0
      ensures Agrees(EvalField(beanFields, fieldPrefix, old(State()), fieldName), failure)
    {
      if fieldName in validationSummary {
        return None;
      }
      ghost var m0 := State();
      BeginProps(beanFields, m0, fieldName);
      validationSummary := validationSummary[fieldName := map[]];
      trace := trace + [fieldName];
      failure := ValidateConstraints(field, fieldName, fieldValue);
    }

    /** The Range region, then the Required region, of
        `validateField(field, fieldName, fieldValue)`. */
    method ValidateConstraints(field: FieldDecl, fieldName: string, fieldValue: Value) returns (failure: Option<Structural>)
      requires fieldName in beanFields && field == beanFields[fieldName] && fieldValue == field.value
      requires fieldName in validationSummary && MemoInv(beanFields, State())
      modifies this`validationSummary, this`validationErrors, this`trace
      decreases Pending(beanFields, State()), 6
      ensures Agrees(EvalConstraints(beanFields, fieldPrefix, old(State()), fieldName), failure)
    {
      ghost var m0 := State();
      var path := AsField(fieldPrefix, fieldName);
      failure := ValidateRange(field, fieldName, fieldValue, path);
      if failure.None? {
        RangeProps(beanFields, m0, fieldName, field, path);
        failure := ValidateRequired(field, fieldName, fieldValue, path);
      }
      ConstraintSteps(beanFields, fieldPrefix, m0, fieldName, field, path);
    }

    /** The Range region of `validateField(field, fieldName, fieldValue)`. */
    method ValidateRange(field: FieldDecl, fieldName: string, fieldValue: Value, path: string)
      returns (failure: Option<Structural>)
      requires fieldName in validationSummary && fieldValue == field.value
      modifies this`validationSummary, this`validationErrors
      ensures Agrees(EvalRange(old(State()), fieldName, field, path), failure)
    {
      failure := None;
      if field.range.Some? && !fieldValue.Null? {
        var from, to := field.range.value.from, field.range.value.to;
        match fieldValue {
          case Num(n) =>
            if OutOfRange(n, from, to) {
              validationSummary := validationSummary[fieldName := validationSummary[fieldName][RangeKind := false]];
              if from.IsInfinite() {
                validationErrors := validationErrors + [ValidationError(path, ValueLesserThan(to))];
              } else if to.IsInfinite() {
                validationErrors := validationErrors + [ValidationError(path, ValueGreaterThan(from))];
              } else {
                validationErrors := validationErrors + [ValidationError(path, ValueBetween(from, to))];
              }
            }
          case Str(len) =>
            var lower := ClampLower(from);
            if OutOfRange(len, lower, to) {
              validationSummary := validationSummary[fieldName := validationSummary[fieldName][RangeKind := false]];
              if to.IsInfinite() {
                validationErrors := validationErrors + [ValidationError(path, StringAtLeast(lower))];
              } else {
                validationErrors := validationErrors + [ValidationError(path, StringBetween(lower, to))];
              }
            }
          case Coll(es) =>
            var lower := ClampLower(from);
            if OutOfRange(|es|, lower, to) {
              validationSummary := validationSummary[fieldName := validationSummary[fieldName][RangeKind := false]];
              if to.IsInfinite() {
                validationErrors := validationErrors + [ValidationError(path, CollectionAtLeast(lower))];
              } else {
                validationErrors := validationErrors + [ValidationError(path, CollectionBetween(lower, to))];
              }
            }
          case _ =>
            return Some(UnsupportedField(path, RangeKind));
        }
      }
    }

    /** The Required region of `validateField(field, fieldName, fieldValue)`:
        nothing for a field without `@Required`. */
    method ValidateRequired(field: FieldDecl, fieldName: string, fieldValue: Value, path: string)
      returns (failure: Option<Structural>)
      requires fieldName in beanFields && field == beanFields[fieldName] && fieldValue == field.value
      requires fieldName in validationSummary && path == AsField(fieldPrefix, fieldName)
      requires MemoInv(beanFields, State())
      modifies this`validationSummary, this`validationErrors, this`trace
      decreases Pending(beanFields, State()), 5
      ensures Agrees(EvalRequired(beanFields, fieldPrefix, old(State()), fieldName), failure)
    {
      ghost var m0 := State();
      if field.required.None? {
        RequiredAbsent(beanFields, fieldPrefix, m0, fieldName);
        return None;
      }
      SetEntryProps(beanFields, m0, fieldName, RequiredKind, false);
      SetRequired(fieldName, false);
      ghost var m1 := State();
      assert Pending(beanFields, m1) == Pending(beanFields, m0);
      failure := CheckRequired(field, fieldName, fieldValue, path);
      RequiredSteps(beanFields, fieldPrefix, m0, fieldName, m1, path, fieldValue.Null?);
    }

    /** The lookups of the Required region, then its outcome. */
    method CheckRequired(field: FieldDecl, fieldName: string, fieldValue: Value, path: string)
      returns (failure: Option<Structural>)
      requires fieldName in beanFields && field == beanFields[fieldName] && fieldValue == field.value
      requires field.required.Some?
      requires fieldName in validationSummary && RequiredKind in validationSummary[fieldName]
      requires MemoInv(beanFields, State())
      modifies this`validationSummary, this`validationErrors, this`trace
      decreases Pending(beanFields, State()), 4
      ensures Agrees(Finish(EvalDependents(beanFields, fieldPrefix, old(State()), fieldName), fieldName, path, fieldValue.Null?), failure)
    {
      var passed: bool;
      passed, failure := ValidateDependents(field, fieldName, fieldValue);
      if failure.None? {
        RecordRequired(passed, fieldName, path, fieldValue.Null?);
      }
    }

    /** The branch of the Required region that runs the `or` loop for a
        null value and the `with` loop otherwise. */
    method ValidateDependents(field: FieldDecl, fieldName: string, fieldValue: Value)
      returns (passed: bool, failure: Option<Structural>)
      requires fieldName in beanFields && field == beanFields[fieldName] && fieldValue == field.value
      requires field.required.Some? && MemoInv(beanFields, State())
      modifies this`validationSummary, this`validationErrors, this`trace
      decreases Pending(beanFields, State()), 3
      ensures match EvalDependents(beanFields, fieldPrefix, old(State()), fieldName)
        case Ok((m, b)) => failure.None? && State() == m && passed == b
        case Err(e) => failure == Some(e)
    {
      if fieldValue.Null? {
        passed, failure := AnyValid(field.required.value.orFields);
      } else {
        passed, failure := AllValid(field.required.value.withFields);
      }
    }

    /** `fieldSummary.put(Required.class, b)`. */
    method SetRequired(fieldName: string, b: bool)
      requires fieldName in validationSummary
      modifies this`validationSummary
      ensures State() == SetEntry(old(State()), fieldName, RequiredKind, b)
    {
      validationSummary := validationSummary[fieldName := validationSummary[fieldName][RequiredKind := b]];
    }

    /** The end of the Required region: `Required=true` when the lookups
        passed, otherwise the error for a missing value or failed dependents. */
    method RecordRequired(passed: bool, fieldName: string, path: string, isNull: bool)
      requires fieldName in validationSummary
      modifies this`validationSummary, this`validationErrors
      ensures State() == Conclude(old(State()), fieldName, path, passed, isNull)
    {
      if passed {
        SetRequired(fieldName, true);
      } else if isNull {
        validationErrors := validationErrors + [ValidationError(path, RequiredField)];
      } else {
        validationErrors := validationErrors + [ValidationError(path, DependentsFailed)];
      }
    }

    /** The `or` loop: each key is evaluated in declared order and the loop
        stops at the first one that is fully valid. */
    method AnyValid(ors: seq<string>) returns (anyValid: bool, failure: Option<Structural>)
      requires MemoInv(beanFields, State())
      modifies this`validationSummary, this`validationErrors, this`trace
      decreases Pending(beanFields, State()), 2
      ensures match EvalOr(beanFields, fieldPrefix, old(State()), ors)
        case Ok((m, b)) => failure.None? && State() == m && anyValid == b
        case Err(e) => failure == Some(e)
    {
      anyValid, failure := false, None;
      var i := 0;
      while i < |ors|
        invariant 0 <= i <= |ors| && failure.None?
        invariant MemoInv(beanFields, State())
        invariant Pending(beanFields, State()) <= Pending(beanFields, old(State()))
        invariant EvalOr(beanFields, fieldPrefix, State(), ors[i..]) == EvalOr(beanFields, fieldPrefix, old(State()), ors)
      {
        var otherField := ors[i];
        ghost var pre := State();
        failure := ValidateFieldByName(otherField);
        if failure.Some? {
          return;
        }
        PendingMonotone(beanFields, pre, State());
        assert ors[i..][1..] == ors[i + 1..];
        var valid := IsFullyValid(validationSummary[otherField]);
        if valid {
          assert EvalOr(beanFields, fieldPrefix, pre, ors[i..]) == Ok((State(), true));
          anyValid := true;
          break;
        }
        i := i + 1;
      }
      assert !anyValid ==> ors[i..] == [];
    }

    /** The `with` loop: each key is evaluated in declared order and the loop
        stops at the first one that is not fully valid. */
    method AllValid(ws: seq<string>) returns (allValid: bool, failure: Option<Structural>)
      requires MemoInv(beanFields, State())
      modifies this`validationSummary, this`validationErrors, this`trace
      decreases Pending(beanFields, State()), 2
      ensures match EvalWith(beanFields, fieldPrefix, old(State()), ws)
        case Ok((m, b)) => failure.None? && State() == m && allValid == b
        case Err(e) => failure == Some(e)
    {
      allValid, failure := true, None;
      var i := 0;
      while i < |ws|
        invariant 0 <= i <= |ws| && failure.None?
        invariant MemoInv(beanFields, State())
        invariant Pending(beanFields, State()) <= Pending(beanFields, old(State()))
        invariant EvalWith(beanFields, fieldPrefix, State(), ws[i..]) == EvalWith(beanFields, fieldPrefix, old(State()), ws)
      {
        var otherField := ws[i];
        ghost var pre := State();
        failure := ValidateFieldByName(otherField);
        if failure.Some? {
          return;
        }
        PendingMonotone(beanFields, pre, State());
        assert ws[i..][1..] == ws[i + 1..];
        var otherValid := IsFullyValid(validationSummary[otherField]);
        if !otherValid {
          assert EvalWith(beanFields, fieldPrefix, pre, ws[i..]) == Ok((State(), false));
          allValid := false;
          break;
        }
        i := i + 1;
      }
      assert allValid ==> ws[i..] == [];
    }
  }
}
