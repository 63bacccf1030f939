/**
 * What the Value type system promises: `get<T>` gives back what `Value{x}`
 * was built from, nulls are typed, the shape check ignores names while
 * equality does not, NaN is equal to nothing, and a malformed tree never
 * reads as a value.
 */
module ValueProperties {
  import opened Wrappers
  import opened Values
  import Decimal
  import Base64
  import CivilTime
  import TupleUtils

  // ---------------------------------------------------------------------
  // get<T>() of Value{x}
  // ---------------------------------------------------------------------

  /**
   * The descriptor `d` names every struct field the way `x` does: a pair
   * field of `x` has the name `d` gives that field, at every depth.
   */
  predicate NamesAgree(d: Type, t: NativeType, x: NativeValue)
    requires HasType(x, t)
  {
    match t
    case OptionalT(inner) => x.opt.Some? ==> NamesAgree(d, inner, x.opt.value)
    case VectorT(e) =>
      d.ArrayType? && forall k :: 0 <= k < |x.items| ==> NamesAgree(d.element, e, x.items[k])
    case PairT(s) => NamesAgree(d, s, x.second)
    case ProductT(es, _) =>
      d.StructType? && |d.fields| == |es| &&
      forall k :: 0 <= k < |es| ==>
        (x.items[k].PairN? ==> d.fields[k].name == x.items[k].name) &&
        NamesAgree(d.fields[k].ftype, es[k], x.items[k])
    case _ => true
  }

  /** A scalar reads back from its wire form. */
  lemma ScalarRoundTrip(d: Type, t: NativeType, x: NativeValue)
    requires t in {BoolT, Int64T, Float64T, StringT, BytesT, TimestampT, DateT}
    requires Matches(d, t) && HasType(x, t)
    ensures Decode(d, Encode(t, x), t) == Success(x)
  {
    match t
    case Int64T =>
      Decimal.Int64RoundTrip(x.i);
    case BytesT =>
      Base64.DecodeEncode(x.bytes);
    case TimestampT =>
      CivilTime.TimestampRoundTrip(x.ts);
    case DateT =>
      CivilTime.DateRoundTrip(x.date);
    case Float64T =>
    case BoolT =>
    case StringT =>
  }

  /** All results are the successes of `xs`, so collecting them gives `xs`. */
  lemma CollectSuccesses<T, E>(rs: seq<Result<T, E>>, xs: seq<T>)
    requires |rs| == |xs| && forall k :: 0 <= k < |rs| ==> rs[k] == Success(xs[k])
    ensures Collect(rs) == Success(xs)
  {
    var r := Collect(rs);
    assert r.Success?;
    assert r.value == xs;
  }

  /**
   * Decoding inverts encoding under any descriptor that has the right shape
   * and names the fields as the value does.
   */
  lemma {:induction false} DecodeEncode(d: Type, t: NativeType, x: NativeValue)
    requires ValidType(t) && HasType(x, t)
    requires Matches(d, t) && NamesAgree(d, t, x)
    ensures Decode(d, Encode(t, x), t) == Success(x)
    decreases t, 1
  {
    if t.OptionalT? {
      OptionalRoundTrip(d, t, x);
    } else if t.VectorT? {
      VectorRoundTrip(d, t, x);
    } else if t.ProductT? {
      ProductRoundTrip(d, t, x);
    } else if !t.PairT? {
      ScalarRoundTrip(d, t, x);
    }
  }

  /** A present optional reads back as its value, an absent one as a null. */
  lemma {:induction false} OptionalRoundTrip(d: Type, t: NativeType, x: NativeValue)
    requires t.OptionalT? && ValidType(t) && HasType(x, t)
    requires Matches(d, t) && NamesAgree(d, t, x)
    ensures Decode(d, Encode(t, x), t) == Success(x)
    decreases t, 0
  {
    if x.opt.Some? {
      var v := x.opt.value;
      EncodeIsNull(t.inner, v);
      DecodeEncode(d, t.inner, v);
      DecodePresent(d, Encode(t.inner, v), t);
    }
  }

  /** A present optional reads as its inner type does. */
  lemma DecodePresent(d: Type, p: ProtoValue, t: NativeType)
    requires t.OptionalT? && Matches(d, t) && !p.NullValue?
    ensures Decode(d, p, t) == match Decode(d, p, t.inner)
      case Success(y) => Success(OptionalN(Some(y)))
      case Failure(e) => Failure(e)
  {
  }

  /** An array reads back item by item. */
  lemma {:induction false} VectorRoundTrip(d: Type, t: NativeType, x: NativeValue)
    requires t.VectorT? && ValidType(t) && HasType(x, t)
    requires Matches(d, t) && NamesAgree(d, t, x)
    ensures Decode(d, Encode(t, x), t) == Success(x)
    decreases t, 0
  {
    var e := t.element;
    var p := Encode(t, x);
    var rs := seq(|p.values|, k requires 0 <= k < |p.values| => Decode(d.element, p.values[k], e));
    forall k | 0 <= k < |rs| ensures rs[k] == Success(x.items[k]) {
      DecodeEncode(d.element, e, x.items[k]);
    }
    CollectSuccesses(rs, x.items);
  }

  /** A struct reads back field by field. */
  lemma {:induction false} ProductRoundTrip(d: Type, t: NativeType, x: NativeValue)
    requires t.ProductT? && ValidType(t) && HasType(x, t)
    requires Matches(d, t) && NamesAgree(d, t, x)
    ensures Decode(d, Encode(t, x), t) == Success(x)
    decreases t, 0
  {
    var es := t.elements;
    var p := Encode(t, x);
    var rs := seq(|es|, k requires 0 <= k < |es| => DecodeField(d.fields[k], p.values[k], es[k]));
    forall k | 0 <= k < |rs| ensures rs[k] == Success(x.items[k]) {
      FieldRoundTrip(d.fields[k], es[k], x.items[k]);
    }
    CollectSuccesses(rs, x.items);
  }

  /** One struct field reads back, a pair with the field's name. */
  lemma {:induction false} FieldRoundTrip(f: Field, e: NativeType, y: NativeValue)
    requires HasType(y, e)
    requires if e.PairT? then ValidType(e.second) && Matches(f.ftype, e.second)
             else ValidType(e) && Matches(f.ftype, e)
    requires (e.PairT? ==> f.name == y.name) && NamesAgree(f.ftype, e, y)
    ensures DecodeField(f, Encode(e, y), e) == Success(y)
    decreases e, 2
  {
    if e.PairT? {
      DecodeEncode(f.ftype, e.second, y.second);
    } else {
      DecodeEncode(f.ftype, e, y);
    }
  }

  /** The descriptor `Value{x}` builds names every field the way `x` does. */
  lemma {:induction false} TypeOfNamesAgree(t: NativeType, x: NativeValue)
    requires ValidType(t) && HasType(x, t) && Uniform(t, x)
    ensures NamesAgree(TypeOf(t, x), t, x)
    decreases t
  {
    match t
    case OptionalT(inner) =>
      if x.opt.Some? {
        TypeOfNamesAgree(inner, x.opt.value);
      }
    case VectorT(e) =>
      forall k | 0 <= k < |x.items| ensures NamesAgree(TypeOf(t, x).element, e, x.items[k]) {
        TypeOfNamesAgree(e, x.items[k]);
      }
    case ProductT(es, shape) =>
      var d := TypeOf(t, x);
      forall k | 0 <= k < |es|
        ensures (x.items[k].PairN? ==> d.fields[k].name == x.items[k].name)
        ensures NamesAgree(d.fields[k].ftype, es[k], x.items[k])
      {
        assert d.fields[k] == Field(FieldName(shape, k, x.items[k]), TypeOf(es[k], x.items[k]));
        if es[k].PairT? {
          TypeOfNamesAgree(es[k].second, x.items[k].second);
        } else {
          TypeOfNamesAgree(es[k], x.items[k]);
        }
      }
    case PairT(_) =>
    case _ =>
  }

  /**
   * `Value{x}.get<T>()` succeeds and returns `x`, for every value whose
   * vector items share one descriptor.
   */
  lemma GetMakeValue(t: NativeType, x: NativeValue)
    requires ValidType(t) && HasType(x, t) && Uniform(t, x)
    ensures Get(MakeValue(t, x), t) == Success(x)
  {
    TypeOfMatches(t, x);
    TypeOfNamesAgree(t, x);
    DecodeEncode(TypeOf(t, x), t, x);
  }

  /**
   * `Value{optional<T>(x)}` is `Value{x}`: it reads back both as `T` and as
   * `optional<T>`.
   */
  lemma GetMakeOptionalValue(t: NativeType, x: NativeValue)
    requires ValidType(t) && !t.OptionalT? && HasType(x, t) && Uniform(t, x)
    ensures Get(MakeValue(OptionalT(t), OptionalN(Some(x))), t) == Success(x)
    ensures Get(MakeValue(OptionalT(t), OptionalN(Some(x))), OptionalT(t)) == Success(OptionalN(Some(x)))
  {
    GetMakeValue(t, x);
    GetMakeValue(OptionalT(t), OptionalN(Some(x)));
  }

  // ---------------------------------------------------------------------
  // Field names do not matter to get<T>
  // ---------------------------------------------------------------------

  /** A struct element type with its pair wrapper, if any, removed. */
  function Unpaired(e: NativeType): NativeType {
    if e.PairT? then e.second else e
  }

  /** The same struct with every `pair<string, T>` element replaced by `T`. */
  function StripPairs(t: NativeType): (u: NativeType)
    requires t.ProductT?
    ensures u.ProductT? && u.shape == t.shape && |u.elements| == |t.elements|
    ensures forall k :: 0 <= k < |t.elements| ==> u.elements[k] == Unpaired(t.elements[k])
  {
    ProductT(seq(|t.elements|, k requires 0 <= k < |t.elements| => Unpaired(t.elements[k])), t.shape)
  }

  /** A struct value with every pair element replaced by its second member. */
  function StripPairValues(x: NativeValue): (y: NativeValue)
    requires x.ProductN?
    ensures y.ProductN? && |y.items| == |x.items|
    ensures forall k :: 0 <= k < |x.items| ==>
      y.items[k] == if x.items[k].PairN? then x.items[k].second else x.items[k]
  {
    ProductN(seq(|x.items|, k requires 0 <= k < |x.items| =>
      if x.items[k].PairN? then x.items[k].second else x.items[k]))
  }

  /** A struct value with every pair element renamed to "". */
  function BlankPairNames(x: NativeValue): (y: NativeValue)
    requires x.ProductN?
    ensures y.ProductN? && |y.items| == |x.items|
    ensures forall k :: 0 <= k < |x.items| ==>
      y.items[k] == if x.items[k].PairN? then PairN("", x.items[k].second) else x.items[k]
  {
    ProductN(seq(|x.items|, k requires 0 <= k < |x.items| =>
      if x.items[k].PairN? then PairN("", x.items[k].second) else x.items[k]))
  }

  /** A value of a type that is not a pair is not a pair. */
  lemma NonPairValue(y: NativeValue, e: NativeType)
    requires HasType(y, e) && !e.PairT?
    ensures !y.PairN?
  {
  }

  /** Stripping the pairs keeps the struct valid, typed, uniform and encoded alike. */
  lemma StripPairsKeepsWireForm(t: NativeType, x: NativeValue)
    requires t.ProductT? && ValidType(t) && HasType(x, t) && Uniform(t, x)
    ensures ValidType(StripPairs(t)) && HasType(StripPairValues(x), StripPairs(t))
    ensures Uniform(StripPairs(t), StripPairValues(x))
    ensures Encode(StripPairs(t), StripPairValues(x)) == Encode(t, x)
  {
    var es, u, y := t.elements, StripPairs(t), StripPairValues(x);
    forall k | 0 <= k < |es|
      ensures ValidType(u.elements[k]) && !u.elements[k].PairT? && HasType(y.items[k], u.elements[k])
      ensures Uniform(u.elements[k], y.items[k])
      ensures Encode(u.elements[k], y.items[k]) == Encode(es[k], x.items[k])
    {
      if !es[k].PairT? {
        NonPairValue(x.items[k], es[k]);
      }
    }
    assert HasType(y, u);
    var p, q := Encode(u, y), Encode(t, x);
    assert |p.values| == |q.values|;
    forall k | 0 <= k < |es| ensures p.values[k] == q.values[k] {
      assert p.values[k] == Encode(u.elements[k], y.items[k]);
    }
  }

  /**
   * Any descriptor that fits a struct and names its pair fields as the
   * value does also fits the struct with its pairs stripped.
   */
  lemma DescriptorFitsStripped(d: Type, t: NativeType, x: NativeValue)
    requires t.ProductT? && ValidType(t) && HasType(x, t)
    requires Matches(d, t) && NamesAgree(d, t, x)
    ensures HasType(StripPairValues(x), StripPairs(t))
    ensures Matches(d, StripPairs(t)) && NamesAgree(d, StripPairs(t), StripPairValues(x))
  {
    var es, u, y := t.elements, StripPairs(t), StripPairValues(x);
    forall k | 0 <= k < |es|
      ensures HasType(y.items[k], u.elements[k]) && Matches(d.fields[k].ftype, u.elements[k])
      ensures !y.items[k].PairN? && NamesAgree(d.fields[k].ftype, u.elements[k], y.items[k])
    {
      FieldFitsStripped(d.fields[k].ftype, es[k], x.items[k]);
    }
  }

  /** One field: what fits the element fits it without its pair wrapper. */
  lemma FieldFitsStripped(f: Type, e: NativeType, y: NativeValue)
    requires HasType(y, e) && (e.PairT? ==> ValidType(e.second))
    requires if e.PairT? then Matches(f, e.second) else Matches(f, e)
    requires NamesAgree(f, e, y)
    ensures var z := if y.PairN? then y.second else y;
      HasType(z, Unpaired(e)) && !z.PairN? && Matches(f, Unpaired(e)) && NamesAgree(f, Unpaired(e), z)
  {
    if e.PairT? {
      NonPairValue(y.second, e.second);
    } else {
      NonPairValue(y, e);
    }
  }

  /**
   * A struct whose fields carry names reads as the same struct without the
   * names, for every valid struct value: `get<T>` ignores field names.
   */
  lemma NamedTupleReadsAsUnnamed(t: NativeType, x: NativeValue)
    requires t.ProductT? && ValidType(t) && HasType(x, t) && Uniform(t, x)
    ensures ValidType(StripPairs(t)) && HasType(StripPairValues(x), StripPairs(t))
    ensures Get(MakeValue(t, x), StripPairs(t)) == Success(StripPairValues(x))
  {
    var u, y := StripPairs(t), StripPairValues(x);
    StripPairsKeepsWireForm(t, x);
    TypeOfMatches(t, x);
    TypeOfNamesAgree(t, x);
    DescriptorFitsStripped(TypeOf(t, x), t, x);
    DecodeEncode(TypeOf(t, x), u, y);
  }

  /**
   * The converse: a struct without names reads as the struct with pair
   * fields, and each pair takes the name on the wire, which is "".
   */
  lemma UnnamedTupleReadsAsNamed(t: NativeType, x: NativeValue)
    requires t.ProductT? && ValidType(t) && HasType(x, t) && Uniform(t, x)
    ensures ValidType(StripPairs(t)) && HasType(StripPairValues(x), StripPairs(t))
    ensures Get(MakeValue(StripPairs(t), StripPairValues(x)), t) == Success(BlankPairNames(x))
  {
    var es, u, y, z := t.elements, StripPairs(t), StripPairValues(x), BlankPairNames(x);
    StripPairsKeepsWireForm(t, x);
    TypeOfMatches(u, y);
    TypeOfNamesAgree(u, y);
    var d := TypeOf(u, y);
    forall k | 0 <= k < |es|
      ensures HasType(z.items[k], es[k]) && Encode(es[k], z.items[k]) == Encode(u.elements[k], y.items[k])
      ensures if es[k].PairT? then Matches(d.fields[k].ftype, es[k].second) else Matches(d.fields[k].ftype, es[k])
      ensures z.items[k].PairN? ==> d.fields[k].name == z.items[k].name
      ensures NamesAgree(d.fields[k].ftype, es[k], z.items[k])
    {
      assert d.fields[k] == Field(FieldName(t.shape, k, y.items[k]), TypeOf(u.elements[k], y.items[k]));
      if es[k].PairT? {
        NonPairValue(y.items[k], u.elements[k]);
      } else {
        NonPairValue(x.items[k], es[k]);
      }
    }
    assert HasType(z, t);
    assert Matches(d, t) && NamesAgree(d, t, z);
    var p, q := Encode(t, z), Encode(u, y);
    forall k | 0 <= k < |es| ensures p.values[k] == q.values[k] {
      assert p.values[k] == Encode(es[k], z.items[k]);
    }
    assert p == q;
    DecodeEncode(d, t, z);
  }

  // ---------------------------------------------------------------------
  // Nulls and malformed trees
  // ---------------------------------------------------------------------

  /** No native type matches the descriptor of a default-constructed Value. */
  lemma {:induction false} UnspecifiedMatchesNothing(t: NativeType)
    ensures !Matches(Unspecified, t)
  {
    if t.OptionalT? {
      UnspecifiedMatchesNothing(t.inner);
    }
  }

  /** A default-constructed Value fails every `get<T>`. */
  lemma DefaultConstructedFailsEveryGet(t: NativeType)
    ensures Get(DefaultConstructed, t) == Failure(TypeMismatch)
  {
    UnspecifiedMatchesNothing(t);
  }

  /** No native type is read from a tree whose kind was cleared. */
  lemma {:induction false} NoKindFitsNotSet(t: NativeType)
    ensures !KindFits(KindNotSet, t)
  {
    match t
    case OptionalT(inner) => NoKindFitsNotSet(inner);
    case PairT(s) => NoKindFitsNotSet(s);
    case _ =>
  }

  /** A tree whose kind was cleared fails every `get<T>`, `optional<T>` included. */
  lemma ClearedKindFailsEveryGet(d: Type, t: NativeType)
    ensures Get(Value(d, KindNotSet), t).Failure?
  {
    NoKindFitsNotSet(t);
  }

  /**
   * The null of type `T` fails `get<T>` with a null error and reads as an
   * empty `optional<T>`.
   */
  lemma GetNullValue(t: NativeType)
    requires ValidType(t) && !t.OptionalT?
    ensures Get(MakeNullValue(t), t) == Failure(NullValueError)
    ensures Get(MakeNullValue(t), OptionalT(t)) == Success(OptionalN(None))
  {
    TypeOfMatches(t, DefaultValue(t));
  }

  /** `MakeNullValue<T>()` is `Value{optional<T>{}}`. */
  lemma NullIsAbsentOptional(t: NativeType)
    requires ValidType(t) && !t.OptionalT?
    ensures MakeNullValue(t) == MakeValue(OptionalT(t), OptionalN(None))
  {
  }

  /** A null is never equal to a Value that is not null. */
  lemma NullNeverEqualsNonNull(v: Value, w: Value)
    requires v.pv == NullValue && w.pv != NullValue
    ensures !Equal(v, w) && !Equal(w, v)
  {
  }

  /** Two nulls are equal exactly when their types have one descriptor. */
  lemma NullsAreTyped(t: NativeType, u: NativeType)
    requires ValidType(t) && ValidType(u)
    ensures Equal(MakeNullValue(t), MakeNullValue(u)) <==> DefaultType(t) == DefaultType(u)
  {
  }

  // ---------------------------------------------------------------------
  // The shape check
  // ---------------------------------------------------------------------

  /** A descriptor with every field name erased. */
  function Skeleton(d: Type): (r: Type)
    ensures r.ArrayType? <==> d.ArrayType?
    ensures r.StructType? <==> d.StructType?
    ensures r.StructType? ==> |r.fields| == |d.fields|
  {
    match d
    case ArrayType(e) => ArrayType(Skeleton(e))
    case StructType(fs) => StructType(seq(|fs|, k requires 0 <= k < |fs| => Field("", Skeleton(fs[k].ftype))))
    case _ => d
  }

  /** Two struct skeletons are equal exactly when their field skeletons are. */
  lemma SkeletonFields(fs: seq<Field>, gs: seq<Field>)
    ensures Skeleton(StructType(fs)) == Skeleton(StructType(gs)) <==>
      |fs| == |gs| && forall k :: 0 <= k < |fs| ==> Skeleton(fs[k].ftype) == Skeleton(gs[k].ftype)
  {
    var a, b := Skeleton(StructType(fs)).fields, Skeleton(StructType(gs)).fields;
    if |fs| == |gs| && forall k :: 0 <= k < |fs| ==> Skeleton(fs[k].ftype) == Skeleton(gs[k].ftype) {
      assert a == b;
    }
    if a == b {
      forall k | 0 <= k < |fs| ensures Skeleton(fs[k].ftype) == Skeleton(gs[k].ftype) {
        assert a[k] == b[k];
      }
    }
  }

  /**
   * `get<T>` accepts exactly the descriptors that equal the descriptor of
   * `T` once every field name is erased.
   */
  lemma {:induction false} MatchesIgnoresNamesOnly(d: Type, t: NativeType)
    requires ValidType(t)
    ensures Matches(d, t) <==> Skeleton(d) == Skeleton(DefaultType(t))
    decreases t
  {
    match t
    case OptionalT(inner) =>
      MatchesIgnoresNamesOnly(d, inner);
    case VectorT(e) =>
      if d.ArrayType? {
        MatchesIgnoresNamesOnly(d.element, e);
      }
    case ProductT(es, shape) =>
      var dt := DefaultType(t);
      var x := DefaultValue(t);
      assert |dt.fields| == |es|;
      if d.StructType? && |d.fields| == |es| {
        forall k | 0 <= k < |es|
          ensures (if es[k].PairT? then Matches(d.fields[k].ftype, es[k].second)
                   else Matches(d.fields[k].ftype, es[k]))
              <==> Skeleton(d.fields[k].ftype) == Skeleton(dt.fields[k].ftype)
        {
          assert x.items[k] == DefaultValue(es[k]);
          assert dt.fields[k].ftype == TypeOf(es[k], x.items[k]);
          if es[k].PairT? {
            MatchesIgnoresNamesOnly(d.fields[k].ftype, es[k].second);
          } else {
            MatchesIgnoresNamesOnly(d.fields[k].ftype, es[k]);
          }
        }
        SkeletonFields(d.fields, dt.fields);
      } else if d.StructType? {
        SkeletonFields(d.fields, dt.fields);
      }
    case PairT(_) =>
    case _ =>
  }

  // ---------------------------------------------------------------------
  // Equality
  // ---------------------------------------------------------------------

  /** A tree is equal to itself exactly when it holds no NaN. */
  lemma {:induction false} TreeEqualReflexive(d: Type, p: ProtoValue)
    ensures TreeEqual(d, p, p) <==> !HasNaN(d, p)
    decreases d
  {
    match d
    case ArrayType(e) =>
      if p.ListValue? {
        forall k | 0 <= k < |p.values| ensures TreeEqual(e, p.values[k], p.values[k]) <==> !HasNaN(e, p.values[k]) {
          TreeEqualReflexive(e, p.values[k]);
        }
      }
    case StructType(fs) =>
      if p.ListValue? && |p.values| == |fs| {
        forall k | 0 <= k < |fs|
          ensures TreeEqual(fs[k].ftype, p.values[k], p.values[k]) <==> !HasNaN(fs[k].ftype, p.values[k])
        {
          TreeEqualReflexive(fs[k].ftype, p.values[k]);
        }
      }
    case _ =>
  }

  /** Tree equality is symmetric. */
  lemma {:induction false} TreeEqualSymmetric(d: Type, p1: ProtoValue, p2: ProtoValue)
    ensures TreeEqual(d, p1, p2) <==> TreeEqual(d, p2, p1)
    decreases d
  {
    match d
    case ArrayType(e) =>
      if p1.ListValue? && p2.ListValue? && |p1.values| == |p2.values| {
        forall k | 0 <= k < |p1.values|
          ensures TreeEqual(e, p1.values[k], p2.values[k]) <==> TreeEqual(e, p2.values[k], p1.values[k])
        {
          TreeEqualSymmetric(e, p1.values[k], p2.values[k]);
        }
      }
    case StructType(fs) =>
      if p1.ListValue? && p2.ListValue? && |p1.values| == |fs| && |p2.values| == |fs| {
        forall k | 0 <= k < |fs|
          ensures TreeEqual(fs[k].ftype, p1.values[k], p2.values[k]) <==> TreeEqual(fs[k].ftype, p2.values[k], p1.values[k])
        {
          TreeEqualSymmetric(fs[k].ftype, p1.values[k], p2.values[k]);
        }
      }
    case _ =>
  }

  /** Tree equality is transitive. */
  lemma {:induction false} TreeEqualTransitive(d: Type, p1: ProtoValue, p2: ProtoValue, p3: ProtoValue)
    requires TreeEqual(d, p1, p2) && TreeEqual(d, p2, p3)
    ensures TreeEqual(d, p1, p3)
    decreases d
  {
    match d
    case ArrayType(e) =>
      if p1.ListValue? && p2.ListValue? && p3.ListValue? {
        forall k | 0 <= k < |p1.values| ensures TreeEqual(e, p1.values[k], p3.values[k]) {
          TreeEqualTransitive(e, p1.values[k], p2.values[k], p3.values[k]);
        }
      }
    case StructType(fs) =>
      if p1.ListValue? && p2.ListValue? && p3.ListValue? && |p1.values| == |fs| && |p2.values| == |fs| && |p3.values| == |fs| {
        forall k | 0 <= k < |fs| ensures TreeEqual(fs[k].ftype, p1.values[k], p3.values[k]) {
          TreeEqualTransitive(fs[k].ftype, p1.values[k], p2.values[k], p3.values[k]);
        }
      }
    case _ =>
  }

  /**
   * Value equality is symmetric and transitive, and reflexive on exactly the
   * Values that hold no NaN.
   */
  lemma EqualIsPartialEquivalence(a: Value, b: Value, c: Value)
    ensures Equal(a, a) <==> !HasNaN(a.vtype, a.pv)
    ensures Equal(a, b) <==> Equal(b, a)
    ensures Equal(a, b) && Equal(b, c) ==> Equal(a, c)
  {
    TreeEqualReflexive(a.vtype, a.pv);
    TreeEqualSymmetric(a.vtype, a.pv, b.pv);
    if Equal(a, b) && Equal(b, c) {
      TreeEqualTransitive(a.vtype, a.pv, b.pv, c.pv);
    }
  }

  /** The encoded tree holds a NaN exactly where the native value does. */
  lemma {:induction false} EncodeHasNaN(d: Type, t: NativeType, x: NativeValue)
    requires ValidType(t) && HasType(x, t) && Matches(d, t)
    ensures HasNaN(d, Encode(t, x)) <==> ContainsNaN(x)
    decreases t, 1
  {
    if t.OptionalT? {
      if x.opt.Some? {
        EncodeHasNaN(d, t.inner, x.opt.value);
      }
    } else if t.VectorT? {
      VectorHasNaN(d, t, x);
    } else if t.ProductT? {
      ProductHasNaN(d, t, x);
    }
  }

  lemma {:induction false} VectorHasNaN(d: Type, t: NativeType, x: NativeValue)
    requires t.VectorT? && ValidType(t) && HasType(x, t) && Matches(d, t)
    ensures HasNaN(d, Encode(t, x)) <==> ContainsNaN(x)
    decreases t, 0
  {
    var p := Encode(t, x);
    forall k | 0 <= k < |x.items| ensures HasNaN(d.element, p.values[k]) <==> ContainsNaN(x.items[k]) {
      EncodeHasNaN(d.element, t.element, x.items[k]);
    }
  }

  lemma {:induction false} ProductHasNaN(d: Type, t: NativeType, x: NativeValue)
    requires t.ProductT? && ValidType(t) && HasType(x, t) && Matches(d, t)
    ensures HasNaN(d, Encode(t, x)) <==> ContainsNaN(x)
    decreases t, 0
  {
    var es, p := t.elements, Encode(t, x);
    forall k | 0 <= k < |es| ensures HasNaN(d.fields[k].ftype, p.values[k]) <==> ContainsNaN(x.items[k]) {
      assert p.values[k] == Encode(es[k], x.items[k]);
      if es[k].PairT? {
        EncodeHasNaN(d.fields[k].ftype, es[k].second, x.items[k].second);
        assert Encode(es[k], x.items[k]) == Encode(es[k].second, x.items[k].second);
      } else {
        EncodeHasNaN(d.fields[k].ftype, es[k], x.items[k]);
      }
    }
  }

  /**
   * `Value{x}` equals itself, and the Value rebuilt from its protos, exactly
   * when `x` holds no NaN.
   */
  lemma ProtoRoundTrip(t: NativeType, x: NativeValue)
    requires ValidType(t) && HasType(x, t)
    ensures var v := MakeValue(t, x);
      var w := FromProto(ToProto(v).0, ToProto(v).1);
      w == v && (Equal(w, v) <==> !ContainsNaN(x))
  {
    var v := MakeValue(t, x);
    TreeEqualReflexive(v.vtype, v.pv);
    EncodeHasNaN(v.vtype, t, x);
  }

  // ---------------------------------------------------------------------
  // Value::Bytes ordering
  // ---------------------------------------------------------------------

  lemma {:induction false} BytesLessIrreflexive(a: seq<Base64.byte>)
    ensures !BytesLess(a, a)
    decreases |a|
  {
    if |a| > 0 {
      BytesLessIrreflexive(a[1..]);
    }
  }

  lemma {:induction false} BytesLessTransitive(a: seq<Base64.byte>, b: seq<Base64.byte>, c: seq<Base64.byte>)
    requires BytesLess(a, b) && BytesLess(b, c)
    ensures BytesLess(a, c)
    decreases |a|
  {
    if |a| > 0 && a[0] == b[0] && b[0] == c[0] {
      BytesLessTransitive(a[1..], b[1..], c[1..]);
    }
  }

  /** Two different byte strings are ordered one way, and only one. */
  lemma {:induction false} BytesLessTotal(a: seq<Base64.byte>, b: seq<Base64.byte>)
    ensures a == b || BytesLess(a, b) || BytesLess(b, a)
    ensures !(BytesLess(a, b) && BytesLess(b, a))
    decreases |a|
  {
    if |a| > 0 && |b| > 0 && a[0] == b[0] {
      BytesLessTotal(a[1..], b[1..]);
      if a[1..] == b[1..] {
        assert a == [a[0]] + a[1..] && b == [b[0]] + b[1..];
      }
    }
  }

  /** Bytes compare as unsigned: "\x00" comes before "\xff". */
  lemma BytesCompareUnsigned()
    ensures BytesLess([0x00], [0xff]) && !BytesLess([0xff], [0x00])
  {
  }
}
