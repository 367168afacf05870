/** Field paths: the dotted and bracketed strings that name where in the
    object graph an error was found. */
module Paths {

  /** `asField(prefix, field)`: the field itself under an empty prefix,
      `prefix.field` otherwise (Java also treats a null prefix as empty). */
  function AsField(prefix: string, field: string): string {
    if prefix == "" then field else prefix + "." + field
  }

  /** A path ends with the name of its field, after the prefix and a dot
      when the prefix is non-empty. */
  lemma AsFieldEndsWith(prefix: string, field: string)
    ensures var r := AsField(prefix, field);
      && |r| >= |field| && r[|r| - |field|..] == field
      && (prefix != "" ==> r[..|prefix|] == prefix && r[|prefix|] == '.')
  {
    var r := AsField(prefix, field);
    if prefix != "" {
      assert r[|r| - |field|..] == field;
    }
  }

  /** The decimal digit for `d`. */
  function Digit(d: nat): (c: char)
    requires d < 10
    ensures '0' <= c <= '9'
  {
    "0123456789"[d]
  }

  /** `String.valueOf(n)` for a non-negative `int`: its decimal digits. */
  function NatToString(n: nat): (s: string)
    ensures |s| > 0
    ensures forall i :: 0 <= i < |s| ==> '0' <= s[i] <= '9'
  {
    if n < 10 then [Digit(n)] else NatToString(n / 10) + [Digit(n % 10)]
  }

  /** The number a string of decimal digits denotes. */
  function ParseDecimal(s: string): nat
    requires forall i :: 0 <= i < |s| ==> '0' <= s[i] <= '9'
  {
    if s == [] then 0
    else ParseDecimal(s[..|s| - 1]) * 10 + (s[|s| - 1] as int - '0' as int)
  }

  /** The path of the element at index `i` of the iterable held by field
      `name`: `String.format("%s[%s]", asField(prefix, name), i)`. */
  function ElementPath(prefix: string, name: string, i: nat): string {
    AsField(prefix, name) + "[" + NatToString(i) + "]"
  }

  /** Splits a path at its last dot: the inverse of `AsField` when the field
      name holds no dot. */
  function SplitLast(path: string): (r: (string, string))
  {
    if path == [] then ("", "")
    else if path[|path| - 1] == '.' then (path[..|path| - 1], "")
    else
      var (p, f) := SplitLast(path[..|path| - 1]);
      (p, f + [path[|path| - 1]])
  }

  lemma {:induction false} ParseNatToString(n: nat)
    ensures ParseDecimal(NatToString(n)) == n
  {
    if n >= 10 {
      var s := NatToString(n);
      assert s[..|s| - 1] == NatToString(n / 10);
      ParseNatToString(n / 10);
    }
  }

  /** Decimal rendering loses nothing: distinct indices print differently. */
  lemma NatToStringInjective(i: nat, j: nat)
    requires NatToString(i) == NatToString(j)
    ensures i == j
  {
    ParseNatToString(i);
    ParseNatToString(j);
  }

  /** Under a fixed prefix, distinct field names give distinct paths. */
  lemma AsFieldInjective(prefix: string, f: string, g: string)
    requires AsField(prefix, f) == AsField(prefix, g)
    ensures f == g
  {
    if prefix != "" {
      assert f == AsField(prefix, f)[|prefix| + 1..];
      assert g == AsField(prefix, g)[|prefix| + 1..];
    }
  }

  /** Two elements of the same iterable never share a path. */
  lemma ElementPathsDistinct(prefix: string, name: string, i: nat, j: nat)
    requires i != j
    ensures ElementPath(prefix, name, i) != ElementPath(prefix, name, j)
  {
    var base := AsField(prefix, name) + "[";
    var pi, pj := ElementPath(prefix, name, i), ElementPath(prefix, name, j);
    if pi == pj {
      assert NatToString(i) == pi[|base|..|pi| - 1];
      assert NatToString(j) == pj[|base|..|pj| - 1];
      NatToStringInjective(i, j);
    }
  }

  lemma {:induction false} SplitLastNoDot(p: string, f: string)
    requires forall i :: 0 <= i < |f| ==> f[i] != '.'
    ensures SplitLast(p + "." + f) == (p, f)
  {
    if f != [] {
      var last := f[|f| - 1];
      assert (p + "." + f)[..|p + "." + f| - 1] == p + "." + f[..|f| - 1];
      SplitLastNoDot(p, f[..|f| - 1]);
      assert f[..|f| - 1] + [last] == f;
    } else {
      assert p + "." + f == p + ".";
      assert (p + ".")[..|p + "."| - 1] == p;
    }
  }

  /** `AsField` is undone by `SplitLast` when the prefix is non-empty and the
      field name holds no dot: a path records its prefix and its field. */
  lemma AsFieldSplit(prefix: string, f: string)
    requires prefix != ""
    requires forall i :: 0 <= i < |f| ==> f[i] != '.'
    ensures SplitLast(AsField(prefix, f)) == (prefix, f)
  {
    SplitLastNoDot(prefix, f);
  }
}
