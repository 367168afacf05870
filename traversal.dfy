/** The recursive walk over the object graph: for one bean, its own hook,
    its field table, the evaluation of every field and the descent into
    nested beans and into the beans held by iterables, with a depth budget
    that shrinks by one per level. These functions are the specification
    that `Validator.Compute` is proved against. */
module Traversal {
  import opened Types
  import opened Paths
  import opened FieldTable
  import opened Evaluation

  /** `MAX_VALIDATION_DEPTH`, the budget of the root walker. */
  const MaxValidationDepth: int := 256

  /** `compute(prefix)` on a walker for `bean` with budget `depth`: `None`
      stands for the `null` Java returns for a null bean. */
  function Walk(bean: Option<Bean>, prefix: string, depth: int): (r: Result<Option<seq<ValidationError>>>)
    ensures depth <= 0 ==> r == Ok(Some([ValidationError(prefix, MaxDepth)]))
    ensures depth > 0 && bean.None? ==> r == Ok(None)
    ensures depth > 0 && bean.Some? && r.Ok? ==> r.value.Some? && bean.value.hook <= r.value.value
    decreases depth, 3, 0
  {
    if depth <= 0 then Ok(Some([ValidationError(prefix, MaxDepth)]))
    else if bean.None? then Ok(None)
    else
      var b := bean.value;
      KeyOrderEnumerates(b.fields);
      match WalkFields(Table(b.fields), KeyOrder(b.fields), prefix, depth, Memo(map[], b.hook, []))
      case Err(e) => Err(e)
      case Ok(m) => Ok(Some(m.errors))
  }

  /** The loop over the keys of `beanFields`: each field is evaluated, then
      the walk descends into its value. */
  function WalkFields(fields: map<string, FieldDecl>, keys: seq<string>, prefix: string, depth: int, m: Memo)
    : (r: Result<Memo>)
    requires depth > 0 && MemoInv(fields, m)
    requires forall k :: k in keys ==> k in fields
    ensures r.Ok? ==> MemoInv(fields, r.value) && Extends(m, r.value)
    decreases depth, 2, |keys|
  {
    if keys == [] then Ok(m)
    else
      var key := keys[0];
      match EvalField(fields, prefix, m, key)
      case Err(e) => Err(e)
      case Ok(m1) =>
        match Descend(fields[key].value, prefix, key, depth, m1.errors)
        case Err(e) => Err(e)
        case Ok(errs) => WalkFields(fields, keys[1..], prefix, depth, m1.(errors := errs))
  }

  /** The errors of a nested walker, appended when it returned a list. */
  function Append(errs: seq<ValidationError>, sub: Result<Option<seq<ValidationError>>>)
    : (r: Result<seq<ValidationError>>)
    ensures r.Ok? ==> errs <= r.value
  {
    match sub
    case Err(e) => Err(e)
    case Ok(None) => Ok(errs)
    case Ok(Some(es)) => Ok(errs + es)
  }

  /** The inner-bean region of `compute` for the field `key` holding `value`:
      a nested bean is walked with one level less at `prefix.key`, an
      iterable has its beans walked at `prefix.key[i]`. */
  function Descend(value: Value, prefix: string, key: string, depth: int, errs: seq<ValidationError>)
    : (r: Result<seq<ValidationError>>)
    requires depth > 0
    ensures r.Ok? ==> errs <= r.value
    decreases depth, 1, 0
  {
    match value
    case Obj(b) => Append(errs, Walk(Some(b), AsField(prefix, key), depth - 1))
    case Coll(elems) => WalkElements(elems, prefix, key, 0, depth, errs)
    case Iter(elems) => WalkElements(elems, prefix, key, 0, depth, errs)
    case _ => Ok(errs)
  }

  /** The loop over an iterable: the counter advances for every element,
      and only beans are walked. */
  function WalkElements(elems: seq<Value>, prefix: string, key: string, counter: nat, depth: int,
                        errs: seq<ValidationError>): (r: Result<seq<ValidationError>>)
    requires depth > 0
    ensures r.Ok? ==> errs <= r.value
    decreases depth, 0, |elems|
  {
    if elems == [] then Ok(errs)
    else
      var next := if elems[0].Obj? then Append(errs, Walk(Some(elems[0].bean), ElementPath(prefix, key, counter), depth - 1))
                  else Ok(errs);
      match next
      case Err(e) => Err(e)
      case Ok(errs1) => WalkElements(elems[1..], prefix, key, counter + 1, depth, errs1)
  }

  /** What the element at index `i` of an iterable contributes: a bean is
      walked at `prefix.key[i]` with one level less, any other element adds
      nothing. */
  function ElementWalk(e: Value, prefix: string, key: string, i: nat, depth: int)
    : Result<Option<seq<ValidationError>>>
  {
    if e.Obj? then Walk(Some(e.bean), ElementPath(prefix, key, i), depth - 1) else Ok(Some([]))
  }

  /** The errors a successful walk returned; none for a null list. */
  function ErrorsOf(r: Result<Option<seq<ValidationError>>>): seq<ValidationError> {
    if r.Ok? && r.value.Some? then r.value.value else []
  }

  /** No element walk of `elems`, numbered from `c`, throws. */
  predicate ElementsPass(elems: seq<Value>, prefix: string, key: string, c: nat, depth: int) {
    forall i :: 0 <= i < |elems| ==> ElementWalk(elems[i], prefix, key, c + i, depth).Ok?
  }

  /** The errors of each element walk of `elems`, numbered from `c`: entry
      `i` belongs to index `c + i`. */
  function Contributions(elems: seq<Value>, prefix: string, key: string, c: nat, depth: int)
    : seq<seq<ValidationError>>
  {
    seq(|elems|, i requires 0 <= i < |elems| => ErrorsOf(ElementWalk(elems[i], prefix, key, c + i, depth)))
  }

  /** The lists of `s` one after the other. */
  function Concat(s: seq<seq<ValidationError>>): seq<ValidationError> {
    if s == [] then [] else s[0] + Concat(s[1..])
  }

  /** Dropping the first element shifts the numbering by one. */
  lemma ContributionsFirst(elems: seq<Value>, prefix: string, key: string, c: nat, depth: int)
    requires elems != []
    ensures Contributions(elems, prefix, key, c, depth)[0] == ErrorsOf(ElementWalk(elems[0], prefix, key, c, depth))
    ensures Contributions(elems, prefix, key, c, depth)[1..] == Contributions(elems[1..], prefix, key, c + 1, depth)
  {
    var s, s1 := Contributions(elems, prefix, key, c, depth), Contributions(elems[1..], prefix, key, c + 1, depth);
    forall i | 0 <= i < |s1| ensures s[1..][i] == s1[i] {
      assert elems[1..][i] == elems[i + 1];
    }
  }

  /** No element walk throws iff the first one does not and none of the rest does. */
  lemma ElementsPassFirst(elems: seq<Value>, prefix: string, key: string, c: nat, depth: int)
    requires elems != []
    ensures ElementsPass(elems, prefix, key, c, depth)
        <==> ElementWalk(elems[0], prefix, key, c, depth).Ok? && ElementsPass(elems[1..], prefix, key, c + 1, depth)
  {
    if ElementWalk(elems[0], prefix, key, c, depth).Ok? && ElementsPass(elems[1..], prefix, key, c + 1, depth) {
      forall i | 0 <= i < |elems| ensures ElementWalk(elems[i], prefix, key, c + i, depth).Ok? {
        if i > 0 {
          assert elems[1..][i - 1] == elems[i];
        }
      }
    }
    if ElementsPass(elems, prefix, key, c, depth) {
      forall i | 0 <= i < |elems[1..]| ensures ElementWalk(elems[1..][i], prefix, key, c + 1 + i, depth).Ok? {
        assert elems[1..][i] == elems[i + 1];
      }
    }
  }

  /** The gathered errors are those of the first element, then those of the rest. */
  lemma ConcatFirst(elems: seq<Value>, prefix: string, key: string, c: nat, depth: int)
    requires elems != []
    ensures Concat(Contributions(elems, prefix, key, c, depth))
         == ErrorsOf(ElementWalk(elems[0], prefix, key, c, depth)) + Concat(Contributions(elems[1..], prefix, key, c + 1, depth))
  {
    ContributionsFirst(elems, prefix, key, c, depth);
  }

  /** One turn of the iterable loop: the first element's walk, then the
      rest from the next index. */
  lemma WalkElementsStep(elems: seq<Value>, prefix: string, key: string, c: nat, depth: int,
                         errs: seq<ValidationError>)
    requires depth > 0 && elems != []
    ensures ElementWalk(elems[0], prefix, key, c, depth).Err? ==>
      WalkElements(elems, prefix, key, c, depth, errs).Err?
    ensures ElementWalk(elems[0], prefix, key, c, depth).Ok? ==>
      WalkElements(elems, prefix, key, c, depth, errs)
      == WalkElements(elems[1..], prefix, key, c + 1, depth, errs + ErrorsOf(ElementWalk(elems[0], prefix, key, c, depth)))
  {
    var w := ElementWalk(elems[0], prefix, key, c, depth);
    if elems[0].Obj? {
      assert w.Ok? ==> w.value.Some?;
    } else {
      assert errs + ErrorsOf(w) == errs;
    }
  }

  /** One turn of the iterable loop when no element walk throws: the rest
      passes too, and the errors gathered so far grow by the first
      element's contribution. */
  lemma WalkElementsPassStep(elems: seq<Value>, prefix: string, key: string, c: nat, depth: int,
                             errs: seq<ValidationError>)
    requires depth > 0 && elems != [] && ElementsPass(elems, prefix, key, c, depth)
    ensures ElementsPass(elems[1..], prefix, key, c + 1, depth)
    ensures WalkElements(elems, prefix, key, c, depth, errs)
         == WalkElements(elems[1..], prefix, key, c + 1, depth, errs + ErrorsOf(ElementWalk(elems[0], prefix, key, c, depth)))
  {
    ElementsPassFirst(elems, prefix, key, c, depth);
    WalkElementsStep(elems, prefix, key, c, depth, errs);
  }

  /** The iterable loop over all inputs whose element walks do not throw:
      the result is `errs` followed by the errors of each element's walk in
      order, the counter advancing for every element and only beans being
      walked. */
  lemma {:induction false} WalkElementsGathers(elems: seq<Value>, prefix: string, key: string, c: nat, depth: int,
                                               errs: seq<ValidationError>)
    requires depth > 0 && ElementsPass(elems, prefix, key, c, depth)
    ensures WalkElements(elems, prefix, key, c, depth, errs) == Ok(errs + Concat(Contributions(elems, prefix, key, c, depth)))
    decreases |elems|
  {
    if elems == [] {
      assert Contributions(elems, prefix, key, c, depth) == [];
      assert errs + [] == errs;
    } else {
      var errs1 := errs + ErrorsOf(ElementWalk(elems[0], prefix, key, c, depth));
      WalkElementsPassStep(elems, prefix, key, c, depth, errs);
      WalkElementsGathers(elems[1..], prefix, key, c + 1, depth, errs1);
      ConcatFirst(elems, prefix, key, c, depth);
      assert errs1 + Concat(Contributions(elems[1..], prefix, key, c + 1, depth))
          == errs + Concat(Contributions(elems, prefix, key, c, depth));
    }
  }

  /** The iterable loop throws as soon as one element walk throws. */
  lemma {:induction false} WalkElementsThrows(elems: seq<Value>, prefix: string, key: string, c: nat, depth: int,
                                              errs: seq<ValidationError>)
    requires depth > 0 && !ElementsPass(elems, prefix, key, c, depth)
    ensures WalkElements(elems, prefix, key, c, depth, errs).Err?
    decreases |elems|
  {
    ElementsPassFirst(elems, prefix, key, c, depth);
    WalkElementsStep(elems, prefix, key, c, depth, errs);
    var first := ElementWalk(elems[0], prefix, key, c, depth);
    if first.Ok? {
      WalkElementsThrows(elems[1..], prefix, key, c + 1, depth, errs + ErrorsOf(first));
    }
  }


  /** What `validate(bean)` does: nothing, the processing exception with every
      error, or a structural exception. */
  datatype Outcome = Passed | ProcessingError(errors: seq<ValidationError>) | StructuralError(cause: Structural)

  /** `validate`: a walker with the full budget at the empty prefix; the
      processing exception exactly when the list is non-null and non-empty. */
  function Verdict(r: Result<Option<seq<ValidationError>>>): (o: Outcome)
    ensures o.ProcessingError? <==> r.Ok? && r.value.Some? && r.value.value != []
    ensures o.ProcessingError? ==> o.errors == r.value.value
    ensures o.StructuralError? <==> r.Err?
  {
    match r
    case Err(e) => StructuralError(e)
    case Ok(None) => Passed
    case Ok(Some(errs)) => if errs != [] then ProcessingError(errs) else Passed
  }
}
