/** The entities of the bean validator: the explicit schema that replaces
    reflection, the constraint declarations, the errors it reports and the
    structural exceptions that abort a validation. */
module Types {

  datatype Option<+T> = None | Some(value: T)

  /** A bound of `@Range`: the Java `double` bounds restricted to integers,
      with the two infinities that are the annotation's defaults. */
  datatype Bound = NegInf | Fin(n: int) | PosInf {
    /** `Double.isInfinite`: true for both infinities. */
    predicate IsInfinite() { !Fin? }
  }

  /** `@Range(from, to)`; the defaults are `NegInf` and `PosInf`. */
  datatype RangeDecl = RangeDecl(from: Bound, to: Bound)

  /** `@Required(or = ..., with = ...)`; both lists default to empty. */
  datatype RequiredDecl = RequiredDecl(orFields: seq<string>, withFields: seq<string>)

  /** The value held by a field, as far as the validator distinguishes it:
      `null`, a `Number`, a `String` (only its `length()` matters: the number
      of UTF-16 code units, which the range check compares), a `Collection`
      (also an `Iterable`), an `Iterable` that is not a `Collection`, a nested
      `Validable` bean, or anything else. */
  datatype Value =
    | Null
    | Num(n: int)
    | Str(length: nat)
    | Coll(elems: seq<Value>)
    | Iter(elems: seq<Value>)
    | Obj(bean: Bean)
    | Other

  /** One declared field of a bean class or of one of its superclasses.
      `validate` is `Some(as)` when the field carries `@Validate(as = ...)`
      (the default alias is the empty string). */
  datatype FieldDecl = FieldDecl(
    name: string,
    validate: Option<string>,
    range: Option<RangeDecl>,
    required: Option<RequiredDecl>,
    value: Value)

  /** A `Validable` bean: the errors its own `validate` hook reports and its
      constrained and unconstrained declared fields, in the order the set
      built by `getFields` yields them. */
  datatype Bean = Bean(hook: seq<ValidationError>, fields: seq<FieldDecl>)

  /** The reason text of a `ValidationError`, as a tagged value that carries
      the bounds the Java message embeds. */
  datatype Reason =
    | MaxDepth                              // "Reached max validation depth."
    | RequiredField                         // "Required field."
    | DependentsFailed                      // "Validation failed due to dependents."
    | ValueLesserThan(to: Bound)            // "Value must be lesser than %s."
    | ValueGreaterThan(from: Bound)         // "Value must be greater than %s."
    | ValueBetween(from: Bound, to: Bound)  // "Value must range between %s and %s."
    | StringAtLeast(from: Bound)            // "String length must be at least %d characters."
    | StringBetween(from: Bound, to: Bound) // "String length must ranges between %d and %d characters."
    | CollectionAtLeast(from: Bound)        // "Collection size must be at least %d elements"
    | CollectionBetween(from: Bound, to: Bound) // "Collection size must ranges between %d and %d elements"
    | Custom(text: string)                  // any reason produced by a bean's own hook

  datatype ValidationError = ValidationError(field: string, reason: Reason)

  /** The constraint classes used as keys of a field's summary. */
  datatype ConstraintKind = RangeKind | RequiredKind

  type Summary = map<ConstraintKind, bool>

  /** The two runtime exceptions that abort the whole traversal. */
  datatype Structural =
    | InvalidField(path: string)
    | UnsupportedField(path: string, kind: ConstraintKind)

  datatype Result<+T> = Ok(value: T) | Err(error: Structural)

  /** A field is fully valid when no constraint recorded in its summary failed. */
  predicate FullyValid(s: Summary) {
    forall k :: k in s ==> s[k]
  }

  /** No element of `s` occurs twice. */
  predicate NoDup<T(==)>(s: seq<T>) {
    forall i, j :: 0 <= i < j < |s| ==> s[i] != s[j]
  }
}
