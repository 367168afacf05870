/** The field table of one bean: which declared fields take part in
    validation and under which key each is found. */
module FieldTable {
  import opened Types

  /** A declared field takes part when it carries `@Range`, `@Required` or
      `@Validate`. */
  predicate Annotated(f: FieldDecl) {
    f.range.Some? || f.required.Some? || f.validate.Some?
  }

  /** `s.trim().isEmpty()`: Java's `trim` strips every character up to `' '`. */
  predicate IsBlank(s: string) {
    forall i :: 0 <= i < |s| ==> s[i] <= ' '
  }

  /** The key of a field: its `@Validate` alias, untrimmed, when the trimmed
      alias is non-empty, and its declared name otherwise. */
  function KeyOf(f: FieldDecl): string {
    if f.validate.Some? && !IsBlank(f.validate.value) then f.validate.value else f.name
  }

  /** The map `beanFields` after putting the annotated fields of `fs` in
      order: a later field with the same key replaces an earlier one. */
  function Table(fs: seq<FieldDecl>): map<string, FieldDecl> {
    if fs == [] then map[]
    else
      var t, f := Table(fs[..|fs| - 1]), fs[|fs| - 1];
      if Annotated(f) then t[KeyOf(f) := f] else t
  }

  /** The keys of `Table(fs)` in the order they were first put. */
  function KeyOrder(fs: seq<FieldDecl>): seq<string> {
    if fs == [] then []
    else
      var init, f := fs[..|fs| - 1], fs[|fs| - 1];
      if Annotated(f) && KeyOf(f) !in Table(init) then KeyOrder(init) + [KeyOf(f)] else KeyOrder(init)
  }

  /** The table holds a key exactly when some annotated field has that key. */
  lemma {:induction false} TableKeys(fs: seq<FieldDecl>, k: string)
    ensures k in Table(fs) <==> exists i :: 0 <= i < |fs| && Annotated(fs[i]) && KeyOf(fs[i]) == k
  {
    if fs != [] {
      var init := fs[..|fs| - 1];
      TableKeys(init, k);
      if k in Table(init) {
        var i :| 0 <= i < |init| && Annotated(init[i]) && KeyOf(init[i]) == k;
        assert fs[i] == init[i];
      }
      if exists i :: 0 <= i < |fs| && Annotated(fs[i]) && KeyOf(fs[i]) == k {
        var i :| 0 <= i < |fs| && Annotated(fs[i]) && KeyOf(fs[i]) == k;
        if i < |init| {
          assert init[i] == fs[i];
        }
      }
    }
  }

  /** `fs[i]` is the last annotated field of `fs` whose key is `k`. */
  predicate LastWithKey(fs: seq<FieldDecl>, i: nat, k: string)
    requires i < |fs|
  {
    && Annotated(fs[i]) && KeyOf(fs[i]) == k
    && forall j :: i < j < |fs| && Annotated(fs[j]) ==> KeyOf(fs[j]) != k
  }

  /** The field stored under a key is the last annotated field with that key. */
  lemma {:induction false} TableLastWins(fs: seq<FieldDecl>, k: string)
    requires k in Table(fs)
    ensures exists i :: 0 <= i < |fs| && Table(fs)[k] == fs[i] && LastWithKey(fs, i, k)
  {
    var init, f := fs[..|fs| - 1], fs[|fs| - 1];
    if Annotated(f) && KeyOf(f) == k {
      assert Table(fs)[k] == fs[|fs| - 1];
    } else {
      TableLastWins(init, k);
      var i :| 0 <= i < |init| && Table(init)[k] == init[i] && LastWithKey(init, i, k);
      assert fs[i] == init[i];
      assert forall j :: i < j < |fs| - 1 ==> fs[j] == init[j];
    }
  }

  /** The key order lists every key of the table exactly once. */
  lemma {:induction false} KeyOrderEnumerates(fs: seq<FieldDecl>)
    ensures NoDup(KeyOrder(fs))
    ensures forall k :: k in KeyOrder(fs) <==> k in Table(fs)
  {
    if fs != [] {
      KeyOrderEnumerates(fs[..|fs| - 1]);
    }
  }
}
