// Column values, rows, and the few sequence facts every other module needs.
module Values {
  datatype Option<+T> = None | Some(value: T)

  datatype Result<+T, +E> = Ok(value: T) | Err(error: E)

  /** A generated or stored scalar.  `Null` is Python's None. */
  datatype Value =
    | Null
    | Text(s: string)
    | Integer(i: int)
    | Number(r: real)
    | Boolean(b: bool)

  /** What Python's `==` and `hash` see of a scalar: True, 1 and 1.0 are one value. */
  datatype Canonical = CNull | CText(s: string) | CNumber(r: real)

  function Canon(v: Value): Canonical {
    match v
    case Null => CNull
    case Text(s) => CText(s)
    case Integer(i) => CNumber(i as real)
    case Number(r) => CNumber(r)
    case Boolean(b) => CNumber(if b then 1.0 else 0.0)
  }

  /** A value as a number, if it counts as one: True is 1. */
  function AsNumber(v: Value): Option<real> {
    match v
    case Integer(i) => Some(i as real)
    case Number(r) => Some(r)
    case Boolean(b) => Some(if b then 1.0 else 0.0)
    case _ => None
  }

  /** Python's `==` between scalars. */
  predicate Same(a: Value, b: Value) {
    || (a.Null? && b.Null?)
    || (a.Text? && b.Text? && a.s == b.s)
    || (AsNumber(a).Some? && AsNumber(a) == AsNumber(b))
  }

  lemma CanonIsSame(a: Value, b: Value)
    ensures Canon(a) == Canon(b) <==> Same(a, b)
    ensures Canon(a) == CNull <==> a.Null?
  {
  }

  type Row = map<string, Value>

  /** `row.get(column)`: a missing column reads as null. */
  function Get(row: Row, column: string): Value {
    if column in row then row[column] else Null
  }

  /** `tuple(row.get(column) for column in columns)`, up to Python equality. */
  function Tuple(row: Row, columns: seq<string>): (t: seq<Canonical>)
    ensures |t| == |columns|
    ensures forall i | 0 <= i < |columns| :: t[i] == Canon(Get(row, columns[i]))
  {
    seq(|columns|, i requires 0 <= i < |columns| => Canon(Get(row, columns[i])))
  }

  function Elems<T(==)>(s: seq<T>): set<T> {
    set x | x in s
  }

  ghost predicate NoDup<T>(s: seq<T>) {
    forall i, j | 0 <= i < j < |s| :: s[i] != s[j]
  }

  function Reverse<T>(s: seq<T>): (r: seq<T>)
    ensures |r| == |s|
  {
    if s == [] then [] else [s[|s| - 1]] + Reverse(s[..|s| - 1])
  }

  lemma {:induction false} ReverseAt<T>(s: seq<T>, i: nat)
    requires i < |s|
    ensures Reverse(s)[|s| - 1 - i] == s[i]
  {
    if i < |s| - 1 { ReverseAt(s[..|s| - 1], i); }
  }

  lemma {:induction false} NoDupCount<T>(s: seq<T>)
    requires NoDup(s)
    ensures |Elems(s)| == |s|
  {
    if s == [] {
    } else {
      var n := |s| - 1;
      NoDupCount(s[..n]);
      assert s == s[..n] + [s[n]];
      assert Elems(s) == Elems(s[..n]) + {s[n]};
    }
  }

  lemma SubsetCount<T>(a: set<T>, b: set<T>)
    requires a <= b
    ensures |a| <= |b|
    ensures |a| == |b| ==> a == b
  {
    assert b == a + (b - a);
    assert |b| == |a| + |b - a|;
  }

  /** A duplicate-free sequence drawn from another is no longer than it, and as long only if it misses nothing. */
  lemma NoDupWithin<T>(s: seq<T>, whole: seq<T>)
    requires NoDup(s) && NoDup(whole) && Elems(s) <= Elems(whole)
    ensures |s| <= |whole|
    ensures |s| == |whole| <==> Elems(s) == Elems(whole)
  {
    NoDupCount(s);
    NoDupCount(whole);
    SubsetCount(Elems(s), Elems(whole));
  }

  lemma ElemsAppend<T>(s: seq<T>, x: T)
    ensures Elems(s + [x]) == Elems(s) + {x}
  {
  }

  lemma ElemsSplit<T>(s: seq<T>)
    requires s != []
    ensures s == s[..|s| - 1] + [s[|s| - 1]]
    ensures Elems(s) == Elems(s[..|s| - 1]) + {s[|s| - 1]}
  {
    assert s == s[..|s| - 1] + [s[|s| - 1]];
  }

  lemma NoDupPrepend<T>(x: T, s: seq<T>)
    requires NoDup(s) && x !in s
    ensures NoDup([x] + s)
    ensures Elems([x] + s) == Elems(s) + {x}
  {
    var r := [x] + s;
    assert forall i | 1 <= i < |r| :: r[i] == s[i - 1] && r[i] in s;
  }

  /** `[x for x in s if x in keep]` */
  function Keep<T(==,!new)>(s: seq<T>, keep: set<T>): (r: seq<T>)
    ensures forall x :: x in r <==> x in s && x in keep
  {
    if s == [] then []
    else
      var n := |s| - 1;
      assert s == s[..n] + [s[n]];
      Keep(s[..n], keep) + (if s[n] in keep then [s[n]] else [])
  }

  lemma KeepStep<T(!new)>(s: seq<T>, keep: set<T>, i: nat)
    requires i < |s|
    ensures s[i] in keep ==> Keep(s[..i + 1], keep) == Keep(s[..i], keep) + [s[i]]
    ensures s[i] !in keep ==> Keep(s[..i + 1], keep) == Keep(s[..i], keep)
  {
    assert s[..i + 1][..i] == s[..i];
  }

  lemma {:induction false} KeepNoDup<T(!new)>(s: seq<T>, keep: set<T>)
    requires NoDup(s)
    ensures NoDup(Keep(s, keep))
  {
    if s == [] {
    } else {
      var n := |s| - 1;
      KeepNoDup(s[..n], keep);
      assert s[n] !in Keep(s[..n], keep);
    }
  }

  lemma {:induction false} CountNoDup<T>(s: seq<T>)
    requires |Elems(s)| == |s|
    ensures NoDup(s)
  {
    if s == [] {
    } else {
      var n := |s| - 1;
      ElemsSplit(s);
      ElemsAtMost(s[..n]);
      CountNoDup(s[..n]);
    }
  }

  lemma {:induction false} ElemsAtMost<T>(s: seq<T>)
    ensures |Elems(s)| <= |s|
  {
    if s == [] {
    } else {
      ElemsSplit(s);
      ElemsAtMost(s[..|s| - 1]);
    }
  }
}
