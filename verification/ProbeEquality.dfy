/** Equality of probe values (internal/monitor/probe.go:254-275, 377-435): numbers and
    numeric text compare as floats, everything else structurally. */
module ProbeEquality {
  import opened Text
  import opened Values
  import opened Wrappers

  function NumericValue(v: Value, lib: Library): Option<Float> {
    match v
    case Integer(_, n) => Some(lib.toFloat(n))
    case Float32(f) => Some(f)
    case Float64(f) => Some(f)
    case JsonNumber(digits) => lib.parseFloat(digits)
    case Text(text) => lib.parseFloat(TrimSpace(text))
    case _ => None
  }

  /** `reflect.DeepEqual`: same dynamic types, NaN equal to nothing. */
  predicate DeepEqual(a: Value, b: Value) {
    match a
    case Float32(x) => b.Float32? && FloatEqual(x, b.f32)
    case Float64(x) => b.Float64? && FloatEqual(x, b.f64)
    case Array(items) =>
      b.Array? && |items| == |b.items| && forall i :: 0 <= i < |items| ==> DeepEqual(items[i], b.items[i])
    case Object(fields) =>
      b.Object? && fields.Keys == b.fields.Keys && forall k :: k in fields ==> DeepEqual(fields[k], b.fields[k])
    case _ => a == b
  }

  predicate NanFree(v: Value) {
    match v
    case Float32(x) => x != NaN
    case Float64(x) => x != NaN
    case Array(items) => forall i :: 0 <= i < |items| ==> NanFree(items[i])
    case Object(fields) => forall k :: k in fields ==> NanFree(fields[k])
    case _ => true
  }

  predicate ValuesEqual(left: Value, right: Value, lib: Library) {
    var leftNum, rightNum := NumericValue(left, lib), NumericValue(right, lib);
    if leftNum.Some? && rightNum.Some? then FloatEqual(leftNum.value, rightNum.value)
    else DeepEqual(left, right)
  }

  /** A number that is not NaN, or a non-number with no NaN inside. */
  predicate Regular(v: Value, lib: Library) {
    match NumericValue(v, lib)
    case Some(f) => f != NaN
    case None => NanFree(v)
  }

  lemma SameItems(a: seq<Value>, b: seq<Value>)
    requires |a| == |b|
    ensures a == b <==> forall i :: 0 <= i < |a| ==> a[i] == b[i]
  {
  }

  lemma SameFields(a: map<string, Value>, b: map<string, Value>)
    requires a.Keys == b.Keys
    ensures a == b <==> forall k :: k in a ==> a[k] == b[k]
  {
  }

  lemma {:induction false} DeepEqualIsIdentity(a: Value, b: Value)
    ensures DeepEqual(a, b) <==> a == b && NanFree(a)
  {
    match a
    case Array(items) =>
      if b.Array? && |items| == |b.items| {
        forall i | 0 <= i < |items| ensures DeepEqual(items[i], b.items[i]) <==> items[i] == b.items[i] && NanFree(items[i]) {
          DeepEqualIsIdentity(items[i], b.items[i]);
        }
        SameItems(items, b.items);
      }
    case Object(fields) =>
      if b.Object? && fields.Keys == b.fields.Keys {
        forall k | k in fields ensures DeepEqual(fields[k], b.fields[k]) <==> fields[k] == b.fields[k] && NanFree(fields[k]) {
          DeepEqualIsIdentity(fields[k], b.fields[k]);
        }
        SameFields(fields, b.fields);
      }
    case _ =>
  }

  // ---------- An equivalence on regular values ----------

  lemma EqualReflexiveIffRegular(v: Value, lib: Library)
    ensures ValuesEqual(v, v, lib) <==> Regular(v, lib)
  {
    DeepEqualIsIdentity(v, v);
  }

  lemma EqualSymmetric(a: Value, b: Value, lib: Library)
    ensures ValuesEqual(a, b, lib) <==> ValuesEqual(b, a, lib)
  {
    DeepEqualIsIdentity(a, b);
    DeepEqualIsIdentity(b, a);
  }

  lemma EqualTransitive(a: Value, b: Value, c: Value, lib: Library)
    requires ValuesEqual(a, b, lib) && ValuesEqual(b, c, lib)
    ensures ValuesEqual(a, c, lib)
  {
    DeepEqualIsIdentity(a, b);
    DeepEqualIsIdentity(b, c);
  }

  /** Whatever equals anything is regular. */
  lemma EqualImpliesRegular(a: Value, b: Value, lib: Library)
    requires ValuesEqual(a, b, lib)
    ensures Regular(a, lib) && Regular(b, lib)
  {
    EqualSymmetric(a, b, lib);
    EqualTransitive(a, b, a, lib);
    EqualTransitive(b, a, b, lib);
    EqualReflexiveIffRegular(a, lib);
    EqualReflexiveIffRegular(b, lib);
  }

  // ---------- all_equal ----------

  /** What the code checks: every later value against the first. */
  predicate AllEqualFirst(values: seq<Value>, lib: Library) {
    forall i :: 0 < i < |values| ==> ValuesEqual(values[0], values[i], lib)
  }

  /** Comparing with the first value only decides whether every two values are equal, NaN
      or not. */
  lemma AllEqualIsPairwise(values: seq<Value>, lib: Library)
    ensures AllEqualFirst(values, lib) <==>
              forall i, j :: 0 <= i < j < |values| ==> ValuesEqual(values[i], values[j], lib)
  {
    if AllEqualFirst(values, lib) {
      forall i, j | 0 <= i < j < |values| ensures ValuesEqual(values[i], values[j], lib) {
        if i > 0 {
          EqualSymmetric(values[0], values[i], lib);
          EqualTransitive(values[i], values[0], values[j], lib);
        }
      }
    }
  }

  lemma AllEqualAnyTwo(values: seq<Value>, x: Value, y: Value, lib: Library)
    requires AllEqualFirst(values, lib) && |values| >= 2 && x in values && y in values
    ensures ValuesEqual(x, y, lib)
  {
    var first := values[0];
    EqualImpliesRegular(first, values[1], lib);
    EqualReflexiveIffRegular(first, lib);
    assert ValuesEqual(first, x, lib) && ValuesEqual(first, y, lib);
    EqualSymmetric(first, x, lib);
    EqualTransitive(x, first, y, lib);
  }

  /** Reordering the operands does not change the verdict. */
  lemma AllEqualIgnoresOrder(a: seq<Value>, b: seq<Value>, lib: Library)
    requires multiset(a) == multiset(b)
    ensures AllEqualFirst(a, lib) <==> AllEqualFirst(b, lib)
  {
    assert |a| == |multiset(a)| == |b|;
    if AllEqualFirst(a, lib) {
      AllEqualTransfers(a, b, lib);
    }
    if AllEqualFirst(b, lib) {
      AllEqualTransfers(b, a, lib);
    }
  }

  lemma AllEqualTransfers(a: seq<Value>, b: seq<Value>, lib: Library)
    requires multiset(a) == multiset(b) && |a| == |b| && AllEqualFirst(a, lib)
    ensures AllEqualFirst(b, lib)
  {
    forall i | 0 < i < |b| ensures ValuesEqual(b[0], b[i], lib) {
      assert b[0] in multiset(b) && b[i] in multiset(b);
      AllEqualAnyTwo(a, b[0], b[i], lib);
    }
  }

  // ---------- Across types ----------

  /** A number in any of its types, or a text or JSON number that reads as it. */
  predicate Writes(v: Value, f: Float, lib: Library) {
    || (v.Integer? && lib.toFloat(v.n) == f)
    || v == Float32(f) || v == Float64(f)
    || (v.JsonNumber? && lib.parseFloat(v.digits) == Some(f))
    || (v.Text? && lib.parseFloat(TrimSpace(v.text)) == Some(f))
  }

  /** Two ways to write numbers are equal exactly when the numbers are, whatever the types. */
  lemma NumbersAcrossTypes(a: Value, x: Float, b: Value, y: Float, lib: Library)
    requires Writes(a, x, lib) && Writes(b, y, lib)
    ensures ValuesEqual(a, b, lib) <==> x == y && x != NaN
  {
    hide TrimSpace;
  }

  /** Everything else equals only itself: structure decides, and types count. */
  lemma OthersByStructure(a: Value, b: Value, lib: Library)
    requires forall f :: !Writes(a, f, lib)
    ensures ValuesEqual(a, b, lib) <==> a == b && NanFree(a)
  {
    hide TrimSpace, DeepEqual, NanFree, Writes;
    NumericIffWrites(a, lib);
    DeepEqualIsIdentity(a, b);
  }

  lemma NumericIffWrites(v: Value, lib: Library)
    ensures NumericValue(v, lib).None? <==> forall f :: !Writes(v, f, lib)
    ensures forall f :: NumericValue(v, lib) == Some(f) ==> Writes(v, f, lib)
  {
    hide TrimSpace;
    if NumericValue(v, lib).Some? {
      assert Writes(v, NumericValue(v, lib).value, lib);
    }
  }

  lemma StructuresAreNotNumbers(v: Value, lib: Library)
    requires v.Nil? || v.Bool? || v.Array? || v.Object?
    ensures forall f :: !Writes(v, f, lib)
  {
  }
}
