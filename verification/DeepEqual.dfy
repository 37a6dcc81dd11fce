/** Value comparison behind pm.expect (internal/script/expect.go). */
module DeepEqual {
  import Redact

  /** float64 as far as == can tell values apart. */
  datatype Number = NaN | Infinite(negative: bool) | Finite(value: real)

  /** What a script value exports to. */
  datatype Value =
    | Null
    | Bool(b: bool)
    | Num(n: Number)
    | Str(s: string)
    | Bytes(bytes: string)
    | Arr(items: seq<Value>)
    | Obj(fields: map<string, Value>)

  predicate SameNumber(a: Number, b: Number) { a != NaN && a == b }

  const MAX_DEPTH := 64

  predicate DeepEq(a: Value, b: Value, depth: nat)
    decreases MAX_DEPTH + 1 - depth
  {
    depth <= MAX_DEPTH
    && match a
       case Num(x) => b.Num? && SameNumber(x, b.n)
       case Str(x) => b.Str? && x == b.s
       case Bool(x) => b.Bool? && x == b.b
       case Null => b.Null?
       case Bytes(x) => b.Bytes? && x == b.bytes
       case Arr(xs) =>
         b.Arr? && |xs| == |b.items| && forall i | 0 <= i < |xs| :: DeepEq(xs[i], b.items[i], depth + 1)
       case Obj(m) =>
         b.Obj? && |m| == |b.fields| && forall k | k in m :: k in b.fields && DeepEq(m[k], b.fields[k], depth + 1)
  }

  predicate EqualValues(a: Value, b: Value, deep: bool) {
    match a
    case Num(x) => b.Num? && SameNumber(x, b.n)
    case Str(x) => b.Str? && x == b.s
    case Bool(x) => b.Bool? && x == b.b
    case Null => b.Null?
    case _ => deep && DeepEq(a, b, 0)
  }

  /** No NaN anywhere, and nested at most n deep. */
  predicate Comparable(v: Value, n: int)
    decreases n
  {
    n >= 0
    && match v
       case Num(x) => x != NaN
       case Arr(xs) => forall i | 0 <= i < |xs| :: Comparable(xs[i], n - 1)
       case Obj(m) => forall k | k in m :: Comparable(m[k], n - 1)
       case _ => true
  }

  lemma SameKeys(a: map<string, Value>, b: map<string, Value>)
    requires |a| == |b| && forall k | k in a :: k in b
    ensures a.Keys == b.Keys
  {
    assert b.Keys == a.Keys + (b.Keys - a.Keys);
    assert |a| == |a.Keys| && |b| == |b.Keys|;
  }

  /** The array case, given the claim for the items. */
  lemma ArrIff(xs: seq<Value>, b: Value, depth: nat)
    requires depth <= MAX_DEPTH
    requires b.Arr? && |xs| == |b.items| ==>
      forall i | 0 <= i < |xs| ::
        DeepEq(xs[i], b.items[i], depth + 1) <==> xs[i] == b.items[i] && Comparable(xs[i], MAX_DEPTH - depth - 1)
    ensures DeepEq(Arr(xs), b, depth) <==> Arr(xs) == b && Comparable(Arr(xs), MAX_DEPTH - depth)
  {
    if b.Arr? && |xs| == |b.items| {
      if DeepEq(Arr(xs), b, depth) { assert xs == b.items; }
    }
  }

  lemma ObjEqualsIff(m: map<string, Value>, b: Value, depth: nat)
    requires depth <= MAX_DEPTH
    ensures DeepEq(Obj(m), b, depth)
       <==> b.Obj? && m.Keys == b.fields.Keys && forall k | k in m :: DeepEq(m[k], b.fields[k], depth + 1)
  {
    if b.Obj? {
      if |m| == |b.fields| && forall k | k in m :: k in b.fields { SameKeys(m, b.fields); }
      if m.Keys == b.fields.Keys { assert |m| == |m.Keys| && |b.fields| == |b.fields.Keys|; }
    }
  }

  /** The object case, given the claim for the fields. */
  lemma ObjIff(m: map<string, Value>, b: Value, depth: nat)
    requires depth <= MAX_DEPTH
    requires b.Obj? && m.Keys == b.fields.Keys ==>
      forall k | k in m ::
        DeepEq(m[k], b.fields[k], depth + 1) <==> m[k] == b.fields[k] && Comparable(m[k], MAX_DEPTH - depth - 1)
    ensures DeepEq(Obj(m), b, depth) <==> Obj(m) == b && Comparable(Obj(m), MAX_DEPTH - depth)
  {
    hide DeepEq;
    ObjEqualsIff(m, b, depth);
    if DeepEq(Obj(m), b, depth) { assert m == b.fields; }
  }

  /** On all values: equal to the comparison exactly when structurally equal, free of NaN
      and within the depth limit. */
  lemma {:induction false} DeepEqIff(a: Value, b: Value, depth: nat)
    ensures DeepEq(a, b, depth) <==> a == b && Comparable(a, MAX_DEPTH - depth)
    decreases MAX_DEPTH + 1 - depth
  {
    if depth <= MAX_DEPTH {
      match a
      case Arr(xs) =>
        hide DeepEq, Comparable;
        if b.Arr? && |xs| == |b.items| {
          forall i | 0 <= i < |xs|
            ensures DeepEq(xs[i], b.items[i], depth + 1)
               <==> xs[i] == b.items[i] && Comparable(xs[i], MAX_DEPTH - depth - 1)
          {
            DeepEqIff(xs[i], b.items[i], depth + 1);
          }
        }
        ArrIff(xs, b, depth);
      case Obj(m) =>
        hide DeepEq, Comparable;
        if b.Obj? && m.Keys == b.fields.Keys {
          forall k | k in m
            ensures DeepEq(m[k], b.fields[k], depth + 1)
               <==> m[k] == b.fields[k] && Comparable(m[k], MAX_DEPTH - depth - 1)
          {
            DeepEqIff(m[k], b.fields[k], depth + 1);
          }
        }
        ObjIff(m, b, depth);
      case _ =>
    }
  }

  /** The plain comparison holds of null, booleans, strings and numbers other than NaN with
      themselves, and of nothing else. */
  lemma ShallowIff(a: Value, b: Value)
    ensures EqualValues(a, b, false) <==> a == b && a != Num(NaN) && (a.Null? || a.Bool? || a.Num? || a.Str?)
  {
  }

  lemma EqualValuesIsDeepEq(a: Value, b: Value)
    ensures EqualValues(a, b, true) <==> DeepEq(a, b, 0)
  {
  }

  /** Deep equality is symmetric and transitive on all values, and a value equals itself
      exactly when it holds no NaN and is nested at most 64 deep. */
  lemma DeepEqIsEquivalence(a: Value, b: Value, c: Value)
    ensures DeepEq(a, a, 0) <==> Comparable(a, MAX_DEPTH)
    ensures DeepEq(a, b, 0) <==> DeepEq(b, a, 0)
    ensures DeepEq(a, b, 0) && DeepEq(b, c, 0) ==> DeepEq(a, c, 0)
    ensures EqualValues(a, b, true) <==> DeepEq(a, b, 0)
  {
    EqualValuesIsDeepEq(a, b);
    hide DeepEq, Comparable, EqualValues;
    DeepEqIff(a, a, 0);
    DeepEqIff(a, b, 0);
    DeepEqIff(b, a, 0);
    DeepEqIff(b, c, 0);
    DeepEqIff(a, c, 0);
  }

  /** [[...]]: n brackets around null. */
  function Nested(n: nat): Value { if n == 0 then Null else Arr([Nested(n - 1)]) }

  lemma {:induction false} NestedComparable(n: nat, limit: int)
    ensures Comparable(Nested(n), limit) <==> n <= limit
    decreases n
  {
    if n > 0 {
      NestedComparable(n - 1, limit - 1);
      assert Nested(n).items[0] == Nested(n - 1);
    }
  }

  /** Brackets n deep around null: equal to itself up to 64, not even to itself beyond. */
  lemma {:induction false} NestedEqualsItselfIff(n: nat)
    ensures DeepEq(Nested(n), Nested(n), 0) <==> n <= 64
  {
    hide Nested, Comparable, DeepEq;
    NestedComparable(n, MAX_DEPTH);
    DeepEqIff(Nested(n), Nested(n), 0);
  }

  // ---- Containment ----

  ghost predicate ContainsValue(container: Value, want: Value) {
    match container
    case Str(s) => want.Str? && Redact.Contains(s, want.s)
    case Bytes(s) => want.Str? && Redact.Contains(s, want.s)
    case Arr(xs) => exists i | 0 <= i < |xs| :: DeepEq(xs[i], want, 0)
    case Obj(m) => want.Obj? && forall k | k in want.fields :: k in m && DeepEq(m[k], want.fields[k], 0)
    case _ => false
  }

  /** Text contains what it holds as a part. */
  lemma StrContainsIff(s: string, w: Value)
    ensures ContainsValue(Str(s), w) <==> exists a, t, b :: w == Str(t) && s == a + t + b
    ensures ContainsValue(Bytes(s), w) <==> ContainsValue(Str(s), w)
  {
    if w.Str? && Redact.Contains(s, w.s) {
      var i: nat :| Redact.OccursAt(s, w.s, i);
      assert s == s[..i] + w.s + s[i + |w.s|..];
    }
    forall a, t, b | w == Str(t) && s == a + t + b ensures Redact.Contains(s, t) {
      assert Redact.OccursAt(s, t, |a|);
    }
  }

  /** An array contains its items that can be compared. */
  lemma ArrContainsIff(xs: seq<Value>, w: Value)
    ensures ContainsValue(Arr(xs), w) <==> w in xs && Comparable(w, 64)
  {
    hide DeepEq, Comparable;
    forall i | 0 <= i < |xs| ensures DeepEq(xs[i], w, 0) <==> xs[i] == w && Comparable(w, 64) {
      DeepEqIff(xs[i], w, 0);
    }
    if w in xs && Comparable(w, 64) {
      var i :| 0 <= i < |xs| && xs[i] == w;
      assert DeepEq(xs[i], w, 0);
    }
  }

  /** Numbers, booleans and null contain nothing, and only an object is in an object. */
  lemma OthersContainNothing(v: Value, w: Value)
    requires v.Num? || v.Bool? || v.Null? || (v.Obj? && !w.Obj?)
    ensures !ContainsValue(v, w)
  {
  }

  lemma ObjContains(m: map<string, Value>, w: map<string, Value>)
    ensures ContainsValue(Obj(m), Obj(w))
       <==> forall k | k in w :: k in m && m[k] == w[k] && Comparable(w[k], MAX_DEPTH)
  {
    hide DeepEq, Comparable;
    forall k | k in w && k in m ensures DeepEq(m[k], w[k], 0) <==> m[k] == w[k] && Comparable(w[k], MAX_DEPTH) {
      DeepEqIff(m[k], w[k], 0);
    }
  }

  /** Containment of objects is a partial order: transitive, antisymmetric, and reflexive
      exactly when every field can be compared. */
  lemma ObjContainmentIsOrder(a: map<string, Value>, b: map<string, Value>, c: map<string, Value>)
    ensures ContainsValue(Obj(a), Obj(a)) <==> forall k | k in a :: Comparable(a[k], MAX_DEPTH)
    ensures ContainsValue(Obj(a), Obj(b)) && ContainsValue(Obj(b), Obj(c)) ==> ContainsValue(Obj(a), Obj(c))
    ensures ContainsValue(Obj(a), Obj(b)) && ContainsValue(Obj(b), Obj(a)) ==> a == b
  {
    ObjContains(a, a);
    ObjContains(a, b);
    ObjContains(b, a);
    ObjContains(b, c);
    ObjContains(a, c);
    hide ContainsValue, Comparable;
    if (forall k | k in b :: k in a && a[k] == b[k]) && (forall k | k in a :: k in b && b[k] == a[k]) {
      assert a.Keys == b.Keys;
    }
  }
}
