# Bean validator model

This project is a Dafny model of the recursive bean validator of
`java-validation-utils` (`BeanValidator`). It also proves properties of that model.

The validator starts from a root `Validable` bean. For each bean it:

- runs the bean's own `validate` hook;
- builds a table of the bean's constrained fields, keyed by field name or by the `@Validate(as = ...)` alias;
- evaluates each field's `@Range` and `@Required` constraints, with a memo table (`validationSummary`) for each level;
- descends into nested beans and into the beans held by iterables, with a depth budget that shrinks by one per level and a growing dotted or bracketed path.

Every violation is collected in discovery order. `validate` turns a non-empty list into one processing exception.

## Layout

| module | file | contents |
|---|---|---|
| `Types` | `types.dfy` | the explicit schema that replaces reflection: fields, bounds, values, beans, reasons, structural exceptions |
| `Paths` | `paths.dfy` | `asField` and element paths, with injectivity and round-trip lemmas |
| `FieldTable` | `fields.dfy` | the alias-keyed `beanFields` table and its key order |
| `Ranges` | `ranges.dfy` | the `@Range` check and the choice of message |
| `Evaluation` | `evaluation.dfy` | `validateField` as functions on a memo state: the specification of the per-field methods |
| `Traversal` | `traversal.dfy` | `compute` as functions: the specification of the walk |
| `BeanValidator` | `validator.dfy` | the imperative model: class `Validator` holds the Java object's mutable fields, and each of its methods is proved to agree with the specification functions |
| `Properties` | `properties.dfy` | short-circuiting, memoisation and termination of mutual references, and the verdict of `@Required` |
| `Scenarios` | `scenarios.dfy` | whole walks over small graphs: nested paths, iterable indices, the depth cut-off on long chains |

The three recursions are each proved to terminate:

- the walk decreases the depth budget;
- the nested `validateField` calls decrease the number of fields of the level without a summary;
- the loops decrease their remaining length.

## Model

| member | source | states |
|---|---|---|
| BeanValidator.Validate | src/main/java/com/recrosoftware/utils/validation/BeanValidator.java:15-24 | the outcome is the verdict of a walker with budget 256 at the empty prefix; a null root passes |
| Traversal.Verdict | src/main/java/com/recrosoftware/utils/validation/BeanValidator.java:21-23 | the processing exception is thrown iff the list is non-null and non-empty, and it carries exactly that list; a structural exception is thrown iff the walk failed |
| Scenarios.DeepChainFails | src/main/java/com/recrosoftware/utils/validation/BeanValidator.java:15-24 | `validate` on a chain of 256 or more nested beans fails with the single depth error, 256 levels down |
| BeanValidator.Validator.Compute | src/main/java/com/recrosoftware/utils/validation/BeanValidator.java:54-120 | the loop over the keys computes exactly `Walk(bean, prefix, currentDepth)`, including the structural exceptions |
| BeanValidator.Validator.constructor | src/main/java/com/recrosoftware/utils/validation/BeanValidator.java:46-52 | a new walker holds its bean and its depth budget, with an empty error list and an empty summary map |
| Traversal.Walk | src/main/java/com/recrosoftware/utils/validation/BeanValidator.java:55-67 | budget <= 0 gives exactly one "Reached max validation depth." error at the prefix, and this is checked before the null check; a null bean gives null; otherwise the hook's errors are a prefix of the list |
| Traversal.WalkFields | src/main/java/com/recrosoftware/utils/validation/BeanValidator.java:84-117 | the field loop keeps the memo invariant and only extends the state: existing summaries are untouched, errors and trace only grow |
| Properties.WalkFieldsCovers | src/main/java/com/recrosoftware/utils/validation/BeanValidator.java:84-91 | a completed walk gives every key of the table a summary, and no key's constraints are evaluated twice |
| Scenarios.UnconstrainedBean | src/main/java/com/recrosoftware/utils/validation/BeanValidator.java:64-67 | a bean without constrained fields reports exactly its hook's errors |
| Scenarios.MissingFieldWalk | src/main/java/com/recrosoftware/utils/validation/BeanValidator.java:186-211 | a null `@Required` field with no `or` keys yields exactly one "Required field." error at `prefix.y` |
| Scenarios.PlainFieldWalk | src/main/java/com/recrosoftware/utils/validation/BeanValidator.java:84-117 | a field with neither Range nor Required adds no error of its own; only the walk of its value does |
| Scenarios.ChainCutOff | src/main/java/com/recrosoftware/utils/validation/BeanValidator.java:55-58 | a chain at least as long as the budget is cut off once, at the path `prefix.next...next` with one step per level |
| Scenarios.ChainPasses | src/main/java/com/recrosoftware/utils/validation/BeanValidator.java:94-95 | a chain shorter than the budget passes with an empty list |
| Scenarios.ChainStep | src/main/java/com/recrosoftware/utils/validation/BeanValidator.java:93-99 | one level of a chain contributes nothing of its own: its walk is the walk of the nested bean at `prefix.next` with one level less |
| BeanValidator.Validator.ResolveFields | src/main/java/com/recrosoftware/utils/validation/BeanValidator.java:71-82 | the loop builds exactly `Table(fields)` and the key order `KeyOrder(fields)` |
| FieldTable.KeyOf | src/main/java/com/recrosoftware/utils/validation/BeanValidator.java:75-79 | the key of a field is its `@Validate(as)` alias, untrimmed, when the trimmed alias is non-empty, and its name otherwise (a definition; `FieldTable.TableKeys` states what it yields) |
| FieldTable.Table | src/main/java/com/recrosoftware/utils/validation/BeanValidator.java:72-82 | `beanFields`: each constrained field is put under its key in turn, so a later put overwrites (a definition; `FieldTable.TableKeys` and `FieldTable.TableLastWins` characterise it) |
| FieldTable.KeyOrder | src/main/java/com/recrosoftware/utils/validation/BeanValidator.java:84 | the keys of `beanFields` in the order they were first put (a definition; `FieldTable.KeyOrderEnumerates` characterises it) |
| FieldTable.TableKeys | src/main/java/com/recrosoftware/utils/validation/BeanValidator.java:74-82 | a key is in the table iff some constrained field has that key, meaning its non-blank alias or else its name |
| FieldTable.TableLastWins | src/main/java/com/recrosoftware/utils/validation/BeanValidator.java:81 | the field stored under a key is the last constrained field with that key: a later field overwrites an earlier one |
| FieldTable.KeyOrderEnumerates | src/main/java/com/recrosoftware/utils/validation/BeanValidator.java:84 | the key order lists every key of the table, and only those, exactly once |
| Scenarios.UnannotatedTable | src/main/java/com/recrosoftware/utils/validation/BeanValidator.java:74-82 | fields without a constraint do not enter the table |
| Scenarios.SingleTable | src/main/java/com/recrosoftware/utils/validation/BeanValidator.java:74-82 | the table of one constrained field maps its key to it |
| BeanValidator.Validator.ValidateInner | src/main/java/com/recrosoftware/utils/validation/BeanValidator.java:92-116 | the inner-bean region appends exactly the errors `Descend` specifies, or fails with its structural exception |
| Traversal.Descend | src/main/java/com/recrosoftware/utils/validation/BeanValidator.java:92-116 | a bean value is walked at `prefix.key` with one level less; a collection or any other iterable has its elements handed to the element loop; the errors gathered so far are kept as a prefix of the result |
| Scenarios.NestedFieldPath | src/main/java/com/recrosoftware/utils/validation/BeanValidator.java:93-99 | an error inside a nested bean is reported at `prefix.key.y`, after the errors gathered so far |
| BeanValidator.Validator.ValidateBean | src/main/java/com/recrosoftware/utils/validation/BeanValidator.java:94-99 | a nested walker with one level less, whose list is appended when it is non-null |
| Traversal.Append | src/main/java/com/recrosoftware/utils/validation/BeanValidator.java:97-99 | the errors gathered so far stay a prefix |
| Scenarios.AppendToEmpty | src/main/java/com/recrosoftware/utils/validation/BeanValidator.java:97-99 | appending a nested walker's list to nothing gives back that walker's result |
| BeanValidator.Validator.ValidateIterable | src/main/java/com/recrosoftware/utils/validation/BeanValidator.java:101-115 | the loop over an iterable appends exactly the errors `WalkElements` specifies, or fails with its structural exception |
| Traversal.WalkElements | src/main/java/com/recrosoftware/utils/validation/BeanValidator.java:101-115 | the errors gathered so far are kept as a prefix of the result |
| Traversal.WalkElementsGathers | src/main/java/com/recrosoftware/utils/validation/BeanValidator.java:101-115 | for any elements, numbered from any counter: when no nested walk throws, the loop returns the errors so far followed by, for each index `i` in order, the errors of the walk of element `i` at `prefix.key[c + i]` with one level less when it is a bean and nothing when it is not |
| Traversal.WalkElementsThrows | src/main/java/com/recrosoftware/utils/validation/BeanValidator.java:101-115 | for any elements, numbered from any counter: when the walk of some element throws, the loop throws |
| Scenarios.ElementAfterNonBean | src/main/java/com/recrosoftware/utils/validation/BeanValidator.java:103-113 | the counter advances for every element: a bean after a non-bean is walked at `prefix.key[1]` |
| BeanValidator.Validator.ValidateFieldByName | src/main/java/com/recrosoftware/utils/validation/BeanValidator.java:122-130 | computes exactly `EvalByName`, including the invalid-field exception |
| Evaluation.EvalByName | src/main/java/com/recrosoftware/utils/validation/BeanValidator.java:122-130 | a key missing from the table throws `InvalidField(asField(prefix, key))`; otherwise the key has a summary afterwards |
| BeanValidator.Validator.ValidateField | src/main/java/com/recrosoftware/utils/validation/BeanValidator.java:132-237 | computes exactly `EvalField`: the new summary, errors and trace, or the structural exception |
| Evaluation.EvalField | src/main/java/com/recrosoftware/utils/validation/BeanValidator.java:132-137 | a key that already has a summary leaves the state unchanged; otherwise the key's evaluation is recorded in the trace at the position where it began, the memo invariant holds (every key is evaluated at most once per level), and other summaries are untouched |
| Evaluation.Begin | src/main/java/com/recrosoftware/utils/validation/BeanValidator.java:136-137 | `validationSummary.put(key, new HashMap<>())`: an empty summary for the key, noted in the trace (a definition; `Evaluation.BeginProps` states what it preserves) |
| BeanValidator.Validator.ValidateConstraints | src/main/java/com/recrosoftware/utils/validation/BeanValidator.java:139-236 | computes exactly `EvalConstraints`: Range first, then Required on the state Range left |
| Evaluation.EvalConstraints | src/main/java/com/recrosoftware/utils/validation/BeanValidator.java:139-236 | keeps the memo invariant and changes no summary other than this field's own |
| Evaluation.ConstraintSteps | src/main/java/com/recrosoftware/utils/validation/BeanValidator.java:139-236 | a Range exception aborts before Required; otherwise Required runs on the state Range left |
| BeanValidator.Validator.ValidateRange | src/main/java/com/recrosoftware/utils/validation/BeanValidator.java:139-184 | computes exactly `EvalRange`: on a violation, `Range=false` and one error at the field's path, or the unsupported-field exception |
| Evaluation.EvalRange | src/main/java/com/recrosoftware/utils/validation/BeanValidator.java:139-184 | the Range region on the memo state: the unsupported-field exception from `CheckRange`, or `Range=false` and one error at the field's path when the check reports a violation, or no change (a definition; `Evaluation.RangeProps` and `Ranges.CheckRange` state its properties) |
| Evaluation.RangeProps | src/main/java/com/recrosoftware/utils/validation/BeanValidator.java:139-184 | the Range region keeps the memo invariant and the set of summarised keys |
| Ranges.CheckRange | src/main/java/com/recrosoftware/utils/validation/BeanValidator.java:140-182 | it does not apply without the annotation or with a null value. A number fails iff it is outside `[from, to]`; the message is upper-bound-only when `from` is infinite, else lower-bound-only when `to` is infinite, else names both bounds. A string's `length()` (UTF-16 code units) and a collection's size are compared against `[max(0, from), to]`, with the lower-only message iff `to` is infinite. Any other value type, an `Iterable` that is not a `Collection` included, throws `UnsupportedField(path, Range)` |
| Ranges.AboveFiniteRange | src/main/java/com/recrosoftware/utils/validation/BeanValidator.java:147-156 | 6 against `@Range(from = 2, to = 5)` is reported with both bounds, and the upper-bound-only reason does not fit it |
| Ranges.ClampLower | src/main/java/com/recrosoftware/utils/validation/BeanValidator.java:158-179 | `max(0, from)` is at least 0 and at least `from`, and is one of the two |
| BeanValidator.Validator.ValidateRequired | src/main/java/com/recrosoftware/utils/validation/BeanValidator.java:186-236 | computes exactly `EvalRequired` |
| Evaluation.EvalRequired | src/main/java/com/recrosoftware/utils/validation/BeanValidator.java:186-236 | a field with `@Required` always ends with a `Required` entry in its summary; no summary other than its own changes |
| Evaluation.RequiredAbsent | src/main/java/com/recrosoftware/utils/validation/BeanValidator.java:187-188 | a field without `@Required` leaves the state as it is |
| Evaluation.RequiredSteps | src/main/java/com/recrosoftware/utils/validation/BeanValidator.java:189-235 | `Required=false` is written before any dependency is looked up, and the outcome is decided on the state the lookups leave |
| BeanValidator.Validator.CheckRequired | src/main/java/com/recrosoftware/utils/validation/BeanValidator.java:191-234 | the lookups followed by the outcome compute exactly `Finish(EvalDependents(...))` |
| BeanValidator.Validator.ValidateDependents | src/main/java/com/recrosoftware/utils/validation/BeanValidator.java:191-234 | computes exactly `EvalDependents`: the `or` loop for a null value, the `with` loop otherwise |
| Evaluation.EvalDependents | src/main/java/com/recrosoftware/utils/validation/BeanValidator.java:191-234 | the lookups keep the memo invariant and only extend the state |
| BeanValidator.Validator.SetRequired | src/main/java/com/recrosoftware/utils/validation/BeanValidator.java:189 | `fieldSummary.put(Required.class, b)` changes only this field's `Required` entry |
| BeanValidator.Validator.RecordRequired | src/main/java/com/recrosoftware/utils/validation/BeanValidator.java:203-233 | `Required=true` when the lookups passed; otherwise one "Required field." or "Validation failed due to dependents." error |
| Evaluation.Conclude | src/main/java/com/recrosoftware/utils/validation/BeanValidator.java:203-233 | the end of the Required region: `Required=true` when the lookups passed, otherwise one "Required field." error for a null value or one "Validation failed due to dependents." error for a present one (a definition; `Properties.RequiredOrVerdict` and `Properties.RequiredWithVerdict` state the verdict) |
| Properties.RequiredOrVerdict | src/main/java/com/recrosoftware/utils/validation/BeanValidator.java:191-211 | with a null value, `Required=true` iff some `or` key is fully valid, and otherwise exactly one "Required field." error at this field's path, including for an empty `or` list |
| Properties.RequiredWithVerdict | src/main/java/com/recrosoftware/utils/validation/BeanValidator.java:212-234 | with a present value, `Required=true` iff every `with` key is fully valid, and otherwise exactly one "Validation failed due to dependents." error at this field's path, not the dependent's |
| Properties.RequiredFails | src/main/java/com/recrosoftware/utils/validation/BeanValidator.java:209-233 | lookups that fail add exactly one error at the field's path and change nothing else |
| BeanValidator.IsFullyValid | src/main/java/com/recrosoftware/utils/validation/BeanValidator.java:196-202 | the inner loop reports valid iff no entry of the summary is `false` |
| BeanValidator.Validator.AnyValid | src/main/java/com/recrosoftware/utils/validation/BeanValidator.java:192-208 | the `or` loop computes exactly `EvalOr` |
| Evaluation.EvalOr | src/main/java/com/recrosoftware/utils/validation/BeanValidator.java:193-208 | the `or` loop answers true iff some listed key is fully valid in the final state |
| Properties.OrShortCircuit | src/main/java/com/recrosoftware/utils/validation/BeanValidator.java:203-207 | the `or` loop stops at the first fully valid key: keys after it are never looked up |
| Properties.OrFailureEvaluatesAll | src/main/java/com/recrosoftware/utils/validation/BeanValidator.java:193-208 | when no `or` key is valid, every key was looked up, found and left not fully valid |
| Properties.OrFailureStep | src/main/java/com/recrosoftware/utils/validation/BeanValidator.java:193-208 | the first key of a failed `or` loop was found, stays not fully valid, and the rest of the loop continues from its state |
| BeanValidator.Validator.AllValid | src/main/java/com/recrosoftware/utils/validation/BeanValidator.java:213-228 | the `with` loop computes exactly `EvalWith` |
| Evaluation.EvalWith | src/main/java/com/recrosoftware/utils/validation/BeanValidator.java:214-228 | the `with` loop answers true iff every listed key is fully valid in the final state |
| Properties.WithShortCircuit | src/main/java/com/recrosoftware/utils/validation/BeanValidator.java:224-227 | the `with` loop stops at the first key that is not fully valid |
| Properties.WithSuccessEvaluatesAll | src/main/java/com/recrosoftware/utils/validation/BeanValidator.java:214-228 | when every `with` key is valid, every key was looked up and found |
| Properties.LookupShift | src/main/java/com/recrosoftware/utils/validation/BeanValidator.java:193-195 | the first lookup does not depend on the keys that follow it |
| Properties.SingleLookupFails | src/main/java/com/recrosoftware/utils/validation/BeanValidator.java:193-228 | a single key that is not fully valid fails both loops |
| Properties.FreshWithoutRangeViolation | src/main/java/com/recrosoftware/utils/validation/BeanValidator.java:136-183 | a fresh key whose Range check passes goes straight from its empty summary to the Required region |
| Properties.FailsThroughDependent | src/main/java/com/recrosoftware/utils/validation/BeanValidator.java:132-236 | a fresh key whose only dependency is found not fully valid ends with `Required=false` and one error at its path |
| Properties.SelfOrFails | src/main/java/com/recrosoftware/utils/validation/BeanValidator.java:133-189 | a null field whose `or` names only itself sees its own pre-set `Required=false`: one "Required field." error and no loop |
| Properties.MutualWithTerminates | src/main/java/com/recrosoftware/utils/validation/BeanValidator.java:133-234 | `a.with(b)` and `b.with(a)` terminate: each is evaluated once, sees the other as invalid, and is reported once, the inner one first |
| Properties.MutualOrTerminates | src/main/java/com/recrosoftware/utils/validation/BeanValidator.java:133-211 | `a.or(b)` and `b.or(a)` on null values terminate, with one "Required field." each |
| Properties.MutualFail | src/main/java/com/recrosoftware/utils/validation/BeanValidator.java:133-189 | the common shape of both mutual cases: final summaries, the two errors in order, and the trace `[a, b]` |
| Properties.MutualFailEval | src/main/java/com/recrosoftware/utils/validation/BeanValidator.java:133-189 | the mutual case as a composition of memo updates |
| Properties.DependsOnPending | src/main/java/com/recrosoftware/utils/validation/BeanValidator.java:133-189 | a field whose only dependency is still being evaluated fails, without evaluating that dependency again |
| Evaluation.BeginProps | src/main/java/com/recrosoftware/utils/validation/BeanValidator.java:136-137 | inserting the empty summary first keeps the memo invariant and strictly shrinks the number of fields still to evaluate |
| Paths.AsFieldEndsWith | src/main/java/com/recrosoftware/utils/validation/BeanValidator.java:239-247 | the path ends with the field, after the prefix and a dot when the prefix is non-empty |
| Paths.AsField | src/main/java/com/recrosoftware/utils/validation/BeanValidator.java:239-247 | `asField`: the field alone under an empty prefix, `prefix.field` otherwise (a definition; `Paths.AsFieldEndsWith`, `Paths.AsFieldInjective` and `Paths.AsFieldSplit` state its properties) |
| Paths.AsFieldInjective | src/main/java/com/recrosoftware/utils/validation/BeanValidator.java:239-247 | under a fixed prefix, distinct fields give distinct paths |
| Paths.AsFieldSplit | src/main/java/com/recrosoftware/utils/validation/BeanValidator.java:239-247 | under a non-empty prefix, splitting at the last dot recovers the prefix and a dot-free field |
| Paths.SplitLastNoDot | src/main/java/com/recrosoftware/utils/validation/BeanValidator.java:242-246 | splitting `p.f` at its last dot gives `(p, f)` when `f` has no dot |
| Paths.NatToString | src/main/java/com/recrosoftware/utils/validation/BeanValidator.java:107 | the index is printed as a non-empty string of decimal digits |
| Paths.ElementPath | src/main/java/com/recrosoftware/utils/validation/BeanValidator.java:107 | `String.format("%s[%s]", asField(prefix, name), counter)` (a definition; `Paths.ElementPathsDistinct` states that distinct indices give distinct paths) |
| Paths.ParseNatToString | src/main/java/com/recrosoftware/utils/validation/BeanValidator.java:107 | the printed index parses back to the index |
| Paths.NatToStringInjective | src/main/java/com/recrosoftware/utils/validation/BeanValidator.java:107 | distinct indices print differently |
| Paths.ElementPathsDistinct | src/main/java/com/recrosoftware/utils/validation/BeanValidator.java:107 | two elements of the same iterable never share a path |

## Left out

- Reflection (`getFields`, `getDeclaredFields`, `getAnnotation`, `setAccessible`, `field.get`) is replaced by an explicit schema: a bean carries its declared fields, each with its annotations and its value. `IllegalAccessException` cannot arise in this form.
- `getFields` returns a `HashSet` (lines 249-264), so the loop at line 74 visits the fields in an unspecified order. The schema's field sequence stands for that order, whatever it is. Which of two fields with the same key `beanFields` keeps (`FieldTable.TableLastWins`) and the first-put key order (`FieldTable.KeyOrder`) hold relative to that sequence, not to declaration order.
- `HashMap` key iteration order (line 84) is unspecified in Java. The model iterates the keys in the order they were first put. Claims about the order of errors hold relative to that order.
- Types.Value gives each value exactly one kind. The checks at lines 93 and 101 are independent `if`s, and the Range check at lines 145-181 looks at the value's class. So in Java a value of a class that is both `Validable` and an `Iterable` (or a `Number` or a `Collection`) is both walked as a bean and iterated, or both range-checked and walked. The model has no such value: `Traversal.Descend` and `Ranges.CheckRange` see only one kind. An `Iterable` that is not a `Collection` is represented (`Iter`): it is iterated, and `@Range` on it throws.
- A string value is represented only by its `length()`, counted in UTF-16 code units as Java counts it; its characters play no part in the validator.
- Bounds and numbers are `double` in Java. The model uses integers, with both infinities as bounds. `doubleValue()` conversion, NaN, and the text of a double or `%d` in a message are not modelled. A reason is a tagged value carrying its bounds.
- The bean's own `Validable.validate(prefix)` hook is code outside this model. Each bean carries the list of errors its hook returns, independent of the prefix argument `asField(prefix, "")`.
- Exceptions become a `Result`: `InvalidField(path)` for `ValidationInvalidFieldException` and `UnsupportedField(path, Range)` for `ValidationUnsupportedFieldException`. The processing exception is the `ProcessingError` outcome of `Validate`. The unmodifiable-list wrapper is not modelled.
- Cyclic object graphs are not modelled. Beans are finite trees, so cycles are represented only through the depth budget, by chains of any length (`Scenarios.ChainCutOff`).
- BeanValidator.IsFullyValid iterates the two constraint kinds the validator ever writes rather than the summary's `keySet()`. The outcome is the same.
- `Validator.trace` is ghost instrumentation (the order in which evaluation of each key began). It exists only to state "at most once per level"; it has no Java counterpart.
- The `null` prefix is not modelled. Prefixes are strings, and the root walker is given the empty prefix, as `validate` does.
- The demo program and the annotation declarations are not modelled beyond the schema they describe.

Two fields that require each other (`A.with(B)` together with `B.with(A)`, or the same through `or`) do not recurse without bound within one level. `validateField` inserts the field's summary before evaluating it (lines 136-137), and a key that already has a summary returns at once (lines 133-135). `Properties.MutualWithTerminates` and `Properties.MutualOrTerminates` prove that such references terminate, each field reported once. The termination measure of the `validateField` recursion proves the same in general.
