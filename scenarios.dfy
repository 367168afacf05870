/** Whole walks over small object graphs: where nested errors are reported,
    how the index of an iterable advances, and what the depth budget does to
    a chain of nested beans. */
module Scenarios {
  import opened Types
  import opened Paths
  import opened FieldTable
  import opened Ranges
  import opened Evaluation
  import opened Traversal
  import opened Properties

  /** A table built from fields none of which carries a constraint is empty. */
  lemma {:induction false} UnannotatedTable(fs: seq<FieldDecl>)
    requires forall i :: 0 <= i < |fs| ==> !Annotated(fs[i])
    ensures Table(fs) == map[] && KeyOrder(fs) == []
  {
    if fs != [] {
      UnannotatedTable(fs[..|fs| - 1]);
    }
  }

  /** A bean none of whose fields carries a constraint reports exactly the
      errors of its own hook. */
  lemma UnconstrainedBean(b: Bean, prefix: string, depth: int)
    requires depth > 0
    requires forall i :: 0 <= i < |b.fields| ==> !Annotated(b.fields[i])
    ensures Walk(Some(b), prefix, depth) == Ok(Some(b.hook))
  {
    UnannotatedTable(b.fields);
  }

  /** A bean with one field `y`, `@Required` with no `or` keys, holding null. */
  function MissingField(y: string): Bean {
    Bean([], [FieldDecl(y, None, None, Some(RequiredDecl([], [])), Null)])
  }

  /** Walking `MissingField(y)` reports exactly "Required field." at `prefix.y`. */
  lemma MissingFieldWalk(y: string, prefix: string, depth: int)
    requires depth > 0
    ensures Walk(Some(MissingField(y)), prefix, depth) == Ok(Some([ValidationError(AsField(prefix, y), RequiredField)]))
  {
    var f := MissingField(y).fields[0];
    var fs := MissingField(y).fields;
    assert fs[..0] == [];
    assert Table(fs) == map[y := f];
    assert KeyOrder(fs) == [y];
    var fields := map[y := f];
    var m0 := Memo(map[], [], []);
    var s1 := SetEntry(Begin(m0, y), y, RequiredKind, false);
    var r := AddError(s1, AsField(prefix, y), RequiredField);
    assert EvalField(fields, prefix, m0, y) == Ok(r) by {
      FreshWithoutRangeViolation(fields, prefix, m0, y);
      BeginProps(fields, m0, y);
      SetEntryProps(fields, Begin(m0, y), y, RequiredKind, false);
      assert EvalDependents(fields, prefix, s1, y) == Ok((s1, false));
      RequiredFails(fields, prefix, Begin(m0, y), y, s1);
    }
    assert WalkFields(fields, [y], prefix, depth, m0) == Ok(r) by {
      assert [y][1..] == [];
      assert Descend(Null, prefix, y, depth, r.errors) == Ok(r.errors);
      assert r.(errors := r.errors) == r;
    }
    assert r.errors == [ValidationError(AsField(prefix, y), RequiredField)];
  }

  /** An error inside a nested bean is reported at `prefix.key.y`. */
  lemma NestedFieldPath(y: string, prefix: string, key: string, depth: int, errs: seq<ValidationError>)
    requires depth > 1
    ensures Descend(Obj(MissingField(y)), prefix, key, depth, errs)
         == Ok(errs + [ValidationError(AsField(AsField(prefix, key), y), RequiredField)])
  {
    MissingFieldWalk(y, AsField(prefix, key), depth - 1);
  }

  /** The index of an iterable counts every element: a bean after one
      non-bean element is walked at `prefix.key[1]`. */
  lemma ElementAfterNonBean(v: Value, y: string, prefix: string, key: string, depth: int,
                            errs: seq<ValidationError>)
    requires depth > 1 && !v.Obj?
    ensures WalkElements([v, Obj(MissingField(y))], prefix, key, 0, depth, errs)
         == Ok(errs + [ValidationError(AsField(ElementPath(prefix, key, 1), y), RequiredField)])
  {
    var elems := [v, Obj(MissingField(y))];
    assert elems[1..] == [Obj(MissingField(y))];
    assert elems[1..][1..] == [];
    MissingFieldWalk(y, ElementPath(prefix, key, 1), depth - 1);
    assert WalkElements(elems[1..], prefix, key, 1, depth, errs)
        == Ok(errs + [ValidationError(AsField(ElementPath(prefix, key, 1), y), RequiredField)]);
  }

  /** A chain of `n` nested beans, each holding the next in a field `next`
      marked `@Validate` with the default alias. */
  function Chain(n: nat): Bean {
    if n == 0 then Bean([], [])
    else Bean([], [FieldDecl("next", Some(""), None, None, Obj(Chain(n - 1)))])
  }

  /** The path `prefix.next.next...` with `k` steps. */
  function ChainPath(prefix: string, k: nat): string
    decreases k
  {
    if k == 0 then prefix else ChainPath(AsField(prefix, "next"), k - 1)
  }

  /** The table of a bean with a single annotated field. */
  lemma SingleTable(f: FieldDecl)
    requires Annotated(f)
    ensures Table([f]) == map[KeyOf(f) := f] && KeyOrder([f]) == [KeyOf(f)]
  {
    assert [f][..0] == [];
  }

  /** A bean whose only field carries no Range and no Required reports what
      the descent into that field's value reports. */
  lemma PlainFieldWalk(f: FieldDecl, prefix: string, depth: int)
    requires depth > 0 && Annotated(f) && f.range.None? && f.required.None?
    ensures Walk(Some(Bean([], [f])), prefix, depth)
         == match Descend(f.value, prefix, KeyOf(f), depth, [])
            case Err(e) => Err(e)
            case Ok(es) => Ok(Some(es))
  {
    var k := KeyOf(f);
    SingleTable(f);
    var fields := map[k := f];
    var m0 := Memo(map[], [], []);
    var m1 := Begin(m0, k);
    assert EvalField(fields, prefix, m0, k) == Ok(m1) by {
      FreshWithoutRangeViolation(fields, prefix, m0, k);
    }
    assert [k][1..] == [];
    match Descend(f.value, prefix, k, depth, []) {
      case Err(e) =>
        assert WalkFields(fields, [k], prefix, depth, m0) == Err(e);
      case Ok(es) =>
        assert WalkFields(fields, [k], prefix, depth, m0) == Ok(m1.(errors := es));
    }
  }

  /** One level of the chain adds nothing of its own: the walk reports what
      the nested walker with one level less reports. */
  lemma ChainStep(n: nat, prefix: string, depth: int)
    requires n > 0 && depth > 0
    ensures Walk(Some(Chain(n)), prefix, depth) == Walk(Some(Chain(n - 1)), AsField(prefix, "next"), depth - 1)
  {
    var f := FieldDecl("next", Some(""), None, None, Obj(Chain(n - 1)));
    var inner := Walk(Some(Chain(n - 1)), AsField(prefix, "next"), depth - 1);
    calc {
      Walk(Some(Chain(n)), prefix, depth);
    == { assert Chain(n) == Bean([], [f]); }
      Walk(Some(Bean([], [f])), prefix, depth);
    == { assert KeyOf(f) == "next"; PlainFieldWalk(f, prefix, depth); }
      match Append([], inner) case Err(e) => Err(e) case Ok(es) => Ok(Some(es));
    == { AppendToEmpty(inner); }
      inner;
    }
  }

  /** Appending the list of a walker that returned one to nothing gives
      that list back. */
  lemma AppendToEmpty(sub: Result<Option<seq<ValidationError>>>)
    requires sub.Ok? ==> sub.value.Some?
    ensures (match Append([], sub) case Err(e) => Err(e) case Ok(es) => Ok(Some(es))) == sub
  {
    if sub.Ok? {
      assert [] + sub.value.value == sub.value.value;
    }
  }

  /** Any result that steps down the chain like the walk, and reports the
      depth error once the budget is spent, reports that error at the path
      reached after `depth` steps when the chain is at least that long. */
  lemma {:induction false} CutOffByStep(w: (nat, string, nat) -> Result<Option<seq<ValidationError>>>,
                                        n: nat, prefix: string, depth: nat)
    requires depth <= n
    requires forall k: nat, p: string :: w(k, p, 0) == Ok(Some([ValidationError(p, MaxDepth)]))
    requires forall k: nat, p: string, d: nat :: 0 < k && 0 < d ==> w(k, p, d) == w(k - 1, AsField(p, "next"), d - 1)
    ensures w(n, prefix, depth) == Ok(Some([ValidationError(ChainPath(prefix, depth), MaxDepth)]))
  {
    if depth > 0 {
      CutOffByStep(w, n - 1, AsField(prefix, "next"), depth - 1);
    }
  }

  /** A chain at least as deep as the budget is cut off once, at the path
      reached when the budget runs out. */
  lemma ChainCutOff(n: nat, prefix: string, depth: nat)
    requires depth <= n
    ensures Walk(Some(Chain(n)), prefix, depth) == Ok(Some([ValidationError(ChainPath(prefix, depth), MaxDepth)]))
  {
    var w := (k: nat, p: string, d: nat) => Walk(Some(Chain(k)), p, d);
    forall k: nat, p: string, d: nat | 0 < k && 0 < d
      ensures Walk(Some(Chain(k)), p, d) == Walk(Some(Chain(k - 1)), AsField(p, "next"), d - 1)
    {
      ChainStep(k, p, d);
    }
    CutOffByStep(w, n, prefix, depth);
  }

  /** Any result that steps down the chain like the walk, and reports
      nothing at the end of the chain, reports nothing for a chain shorter
      than the budget. */
  lemma {:induction false} PassesByStep(w: (nat, string, nat) -> Result<Option<seq<ValidationError>>>,
                                        n: nat, prefix: string, depth: nat)
    requires depth > n
    requires forall p: string, d: nat :: 0 < d ==> w(0, p, d) == Ok(Some([]))
    requires forall k: nat, p: string, d: nat :: 0 < k && 0 < d ==> w(k, p, d) == w(k - 1, AsField(p, "next"), d - 1)
    ensures w(n, prefix, depth) == Ok(Some([]))
  {
    if n > 0 {
      PassesByStep(w, n - 1, AsField(prefix, "next"), depth - 1);
    }
  }

  /** A chain shorter than the budget passes with no error. */
  lemma ChainPasses(n: nat, prefix: string, depth: nat)
    requires depth > n
    ensures Walk(Some(Chain(n)), prefix, depth) == Ok(Some([]))
  {
    var w := (k: nat, p: string, d: nat) => Walk(Some(Chain(k)), p, d);
    forall p: string, d: nat | 0 < d
      ensures Walk(Some(Chain(0)), p, d) == Ok(Some([]))
    {
      UnconstrainedBean(Chain(0), p, d);
    }
    forall k: nat, p: string, d: nat | 0 < k && 0 < d
      ensures Walk(Some(Chain(k)), p, d) == Walk(Some(Chain(k - 1)), AsField(p, "next"), d - 1)
    {
      ChainStep(k, p, d);
    }
    PassesByStep(w, n, prefix, depth);
  }

  /** `validate` on a chain of 256 beans or more fails with the single
      depth error, 256 levels down. */
  lemma DeepChainFails(n: nat)
    requires n >= MaxValidationDepth
    ensures Verdict(Walk(Some(Chain(n)), "", MaxValidationDepth))
         == ProcessingError([ValidationError(ChainPath("", 256), MaxDepth)])
  {
    ChainCutOff(n, "", 256);
  }
}
