/**
 * The `Value` type system of the client: a Value owns exactly one pair of a
 * wire type descriptor (`google.spanner.v1.Type`) and a wire value tree
 * (`google.protobuf.Value`). Native C++ values enter through `MakeValue`,
 * leave through the typed `Get`, and travel as the pair itself through
 * `ToProto` / `FromProto`.
 *
 * The native side is reified: `NativeType` stands for a C++ type usable with
 * `Value` (`bool`, `std::int64_t`, `double`, `std::string`, `Bytes`,
 * `Timestamp`, `Date`, `optional<T>`, `std::vector<T>`, a struct field
 * `std::pair<std::string, T>`, and any product type the reflection bridge
 * accepts), and `NativeValue` stands for a value of such a type.
 */
module Values {
  import opened Wrappers
  import Decimal
  import Base64
  import CivilTime
  import TupleUtils

  /** An IEEE-754 double, abstracted to the cases the wire format tells apart. */
  datatype Float64 = Finite(x: real) | PositiveInfinity | NegativeInfinity | NaN

  /** The wire type descriptor. `Unspecified` is the descriptor of a default-constructed Value. */
  datatype Type =
    | Unspecified
    | BoolType
    | Int64Type
    | Float64Type
    | StringType
    | BytesType
    | TimestampType
    | DateType
    | ArrayType(element: Type)
    | StructType(fields: seq<Field>)

  /** A struct field of a descriptor; an unnamed field has the name "". */
  datatype Field = Field(name: string, ftype: Type)

  /** The wire value tree; `KindNotSet` is a tree whose kind was cleared. */
  datatype ProtoValue =
    | KindNotSet
    | NullValue
    | NumberValue(number: Float64)
    | StringValue(str: string)
    | BoolValue(boolean: bool)
    | ListValue(values: seq<ProtoValue>)

  datatype Value = Value(vtype: Type, pv: ProtoValue)

  /** A native C++ type that a Value is built from or extracted into. */
  datatype NativeType =
    | BoolT
    | Int64T
    | Float64T
    | StringT
    | BytesT
    | TimestampT
    | DateT
    | OptionalT(inner: NativeType)
    | VectorT(element: NativeType)
    | PairT(second: NativeType)
    | ProductT(elements: seq<NativeType>, shape: TupleUtils.Shape)

  /** A value of a native type; a struct field pair carries its field name. */
  datatype NativeValue =
    | BoolN(b: bool)
    | Int64N(i: int)
    | Float64N(f: Float64)
    | StringN(s: string)
    | BytesN(bytes: seq<Base64.byte>)
    | TimestampN(ts: CivilTime.Timestamp)
    | DateN(date: CivilTime.Date)
    | OptionalN(opt: Option<NativeValue>)
    | VectorN(items: seq<NativeValue>)
    | PairN(name: string, second: NativeValue)
    | ProductN(items: seq<NativeValue>)

  /** Why a `Get` failed. */
  datatype Error =
    | TypeMismatch       // the descriptor does not have the shape of the requested type
    | NullValueError     // a null was read into a type that is not optional
    | KindMismatch       // the tree's kind is not the one the type is encoded as
    | InvalidInt64       // a string that is not an int64 in decimal
    | InvalidFloat64     // a string other than the three special tokens
    | InvalidBase64      // the error whose status message reads "Invalid base64"
    | InvalidTimestamp
    | InvalidDate

  /**
   * The native types a Value accepts: no optional of an optional, pairs only
   * as fields of an unnamed product (the value of a pair may be optional),
   * and products whose element count is known and matches their element
   * types.
   */
  predicate ValidType(t: NativeType) {
    match t
    case OptionalT(inner) => !inner.OptionalT? && ValidType(inner)
    case VectorT(e) => ValidType(e)
    case PairT(_) => false
    case ProductT(es, shape) =>
      TupleUtils.HasNumElements(shape) && TupleUtils.NumElements(shape) == |es| &&
      forall k :: 0 <= k < |es| ==>
        if es[k].PairT? then
          !TupleUtils.IsNamedStructCorrected(shape) && ValidType(es[k].second)
        else ValidType(es[k])
    case _ => true
  }

  /** `x` is a value of the native type `t`. */
  predicate HasType(x: NativeValue, t: NativeType) {
    match t
    case BoolT => x.BoolN?
    case Int64T => x.Int64N? && Decimal.MinInt64 <= x.i <= Decimal.MaxInt64
    case Float64T => x.Float64N?
    case StringT => x.StringN?
    case BytesT => x.BytesN?
    case TimestampT => x.TimestampN? && CivilTime.ValidTimestamp(x.ts)
    case DateT => x.DateN? && CivilTime.ValidDate(x.date)
    case OptionalT(inner) => x.OptionalN? && (x.opt.Some? ==> HasType(x.opt.value, inner))
    case VectorT(e) => x.VectorN? && forall k :: 0 <= k < |x.items| ==> HasType(x.items[k], e)
    case PairT(s) => x.PairN? && HasType(x.second, s)
    case ProductT(es, _) =>
      x.ProductN? && |x.items| == |es| && forall k :: 0 <= k < |es| ==> HasType(x.items[k], es[k])
  }

  /** The value-initialised `T{}`: false, zero, empty, the epoch, no value, no items. */
  function DefaultValue(t: NativeType): (x: NativeValue)
    ensures HasType(x, t)
  {
    match t
    case BoolT => BoolN(false)
    case Int64T => Int64N(0)
    case Float64T => Float64N(Finite(0.0))
    case StringT => StringN("")
    case BytesT => BytesN([])
    case TimestampT => TimestampN(CivilTime.EpochTimestamp)
    case DateT => DateN(CivilTime.Epoch)
    case OptionalT(_) => OptionalN(None)
    case VectorT(_) => VectorN([])
    case PairT(s) => PairN("", DefaultValue(s))
    case ProductT(es, _) => ProductN(seq(|es|, k requires 0 <= k < |es| => DefaultValue(es[k])))
  }

  /**
   * The name the descriptor gives field `k` of a product: the bridge's name
   * when the product is a named struct, the pair's name when the field is a
   * pair, and "" otherwise.
   */
  function FieldName(shape: TupleUtils.Shape, k: nat, x: NativeValue): (name: string)
    ensures TupleUtils.IsNamedStructCorrected(shape) && k < TupleUtils.NumElements(shape) ==>
      k in shape.names && shape.names[k] == TupleUtils.StringName(name)
    ensures !TupleUtils.IsNamedStructCorrected(shape) && x.PairN? ==> name == x.name
    ensures !TupleUtils.IsNamedStructCorrected(shape) && !x.PairN? ==> name == ""
  {
    if TupleUtils.IsNamedStructCorrected(shape) && k < TupleUtils.NumElements(shape) then
      assert TupleUtils.ElementNameIsConvertibleToString(shape, k);
      shape.names[k].name
    else if x.PairN? then x.name
    else ""
  }

  /**
   * The descriptor of a native value. An absent optional and an empty vector
   * describe their element through `T{}`; a vector takes its element
   * descriptor from its first item.
   */
  function TypeOf(t: NativeType, x: NativeValue): Type
    requires HasType(x, t)
  {
    match t
    case BoolT => BoolType
    case Int64T => Int64Type
    case Float64T => Float64Type
    case StringT => StringType
    case BytesT => BytesType
    case TimestampT => TimestampType
    case DateT => DateType
    case OptionalT(inner) =>
      if x.opt.Some? then TypeOf(inner, x.opt.value) else TypeOf(inner, DefaultValue(inner))
    case VectorT(e) =>
      ArrayType(if |x.items| > 0 then TypeOf(e, x.items[0]) else TypeOf(e, DefaultValue(e)))
    case PairT(s) => TypeOf(s, x.second)
    case ProductT(es, shape) =>
      StructType(seq(|es|, k requires 0 <= k < |es| =>
        Field(FieldName(shape, k, x.items[k]), TypeOf(es[k], x.items[k]))))
  }

  /** The descriptor of the C++ type itself, as `MakeNullValue<T>()` carries it. */
  function DefaultType(t: NativeType): Type {
    TypeOf(t, DefaultValue(t))
  }

  /** The wire form of a double: finite numbers as numbers, the rest as tokens. */
  function EncodeFloat64(f: Float64): (p: ProtoValue)
    ensures f.Finite? <==> p.NumberValue?
  {
    match f
    case Finite(_) => NumberValue(f)
    case PositiveInfinity => StringValue("Infinity")
    case NegativeInfinity => StringValue("-Infinity")
    case NaN => StringValue("NaN")
  }

  /** Reads a double from a number or one of the three special tokens. */
  function DecodeFloat64(p: ProtoValue): (r: Result<Float64, Error>)
    requires !p.NullValue?
    ensures r.Success? ==> EncodeFloat64(r.value) == p || p == NumberValue(r.value)
    ensures !p.NumberValue? && !p.StringValue? ==> r == Failure(KindMismatch)
  {
    match p
    case NumberValue(f) => Success(f)
    case StringValue(s) =>
      if s == "Infinity" then Success(PositiveInfinity)
      else if s == "-Infinity" then Success(NegativeInfinity)
      else if s == "NaN" then Success(NaN)
      else Failure(InvalidFloat64)
    case _ => Failure(KindMismatch)
  }

  /** The wire value tree of a native value. */
  function Encode(t: NativeType, x: NativeValue): ProtoValue
    requires HasType(x, t)
  {
    match t
    case BoolT => BoolValue(x.b)
    case Int64T => StringValue(Decimal.IntToString(x.i))
    case Float64T => EncodeFloat64(x.f)
    case StringT => StringValue(x.s)
    case BytesT => StringValue(Base64.Encode(x.bytes))
    case TimestampT => StringValue(CivilTime.TimestampToString(x.ts))
    case DateT => StringValue(CivilTime.DateToString(x.date))
    case OptionalT(inner) => if x.opt.Some? then Encode(inner, x.opt.value) else NullValue
    case VectorT(e) => ListValue(seq(|x.items|, k requires 0 <= k < |x.items| => Encode(e, x.items[k])))
    case PairT(s) => Encode(s, x.second)
    case ProductT(es, _) => ListValue(seq(|es|, k requires 0 <= k < |es| => Encode(es[k], x.items[k])))
  }

  /** `Value{x}` for a value `x` of type `t`; it is null exactly when `x` is an absent optional. */
  function MakeValue(t: NativeType, x: NativeValue): (v: Value)
    requires ValidType(t) && HasType(x, t)
    ensures Matches(v.vtype, t)
    ensures v.pv.NullValue? <==> x == OptionalN(None)
  {
    TypeOfMatches(t, x);
    EncodeIsNull(t, x);
    Value(TypeOf(t, x), Encode(t, x))
  }

  /** The descriptor of a value passes the shape check of its own type. */
  lemma {:induction false} TypeOfMatches(t: NativeType, x: NativeValue)
    requires ValidType(t) && HasType(x, t)
    ensures Matches(TypeOf(t, x), t)
  {
    match t
    case OptionalT(inner) =>
      if x.opt.Some? {
        TypeOfMatches(inner, x.opt.value);
      } else {
        TypeOfMatches(inner, DefaultValue(inner));
      }
    case VectorT(e) =>
      if |x.items| > 0 {
        TypeOfMatches(e, x.items[0]);
      } else {
        TypeOfMatches(e, DefaultValue(e));
      }
    case ProductT(es, shape) =>
      var d := TypeOf(t, x);
      forall k | 0 <= k < |es|
        ensures if es[k].PairT? then Matches(d.fields[k].ftype, es[k].second) else Matches(d.fields[k].ftype, es[k])
      {
        assert d.fields[k].ftype == TypeOf(es[k], x.items[k]);
        if es[k].PairT? {
          TypeOfMatches(es[k].second, x.items[k].second);
        } else {
          TypeOfMatches(es[k], x.items[k]);
        }
      }
    case _ =>
  }

  /** Only an absent optional encodes as a null. */
  lemma {:induction false} EncodeIsNull(t: NativeType, x: NativeValue)
    requires ValidType(t) && HasType(x, t)
    ensures Encode(t, x).NullValue? <==> x == OptionalN(None)
  {
    match t
    case OptionalT(inner) =>
      if x.opt.Some? {
        EncodeIsNull(inner, x.opt.value);
      }
    case BoolT =>
    case Int64T =>
    case Float64T =>
    case StringT =>
    case BytesT =>
    case TimestampT =>
    case DateT =>
    case VectorT(_) =>
    case PairT(_) =>
    case ProductT(_, _) =>
  }

  /** `MakeNullValue<T>()`: the null of type `t`, carrying the descriptor of `t`. */
  function MakeNullValue(t: NativeType): (v: Value)
    requires ValidType(t)
    ensures v.pv == NullValue
  {
    Value(DefaultType(t), NullValue)
  }

  /** The default-constructed Value: no type and no kind. */
  const DefaultConstructed: Value := Value(Unspecified, KindNotSet)

  function ToProto(v: Value): (r: (Type, ProtoValue))
    ensures r.0 == v.vtype && r.1 == v.pv
  {
    (v.vtype, v.pv)
  }

  function FromProto(t: Type, p: ProtoValue): (v: Value)
    ensures ToProto(v) == (t, p)
  {
    Value(t, p)
  }

  /**
   * The shape check of `get<T>`: the descriptor has the shape of `t`, with
   * optionality, pair wrappers and every field name ignored.
   */
  predicate Matches(d: Type, t: NativeType) {
    match t
    case BoolT => d == BoolType
    case Int64T => d == Int64Type
    case Float64T => d == Float64Type
    case StringT => d == StringType
    case BytesT => d == BytesType
    case TimestampT => d == TimestampType
    case DateT => d == DateType
    case OptionalT(inner) => Matches(d, inner)
    case VectorT(e) => d.ArrayType? && Matches(d.element, e)
    case PairT(_) => false
    case ProductT(es, _) =>
      d.StructType? && |d.fields| == |es| &&
      forall k :: 0 <= k < |es| ==>
        if es[k].PairT? then Matches(d.fields[k].ftype, es[k].second) else Matches(d.fields[k].ftype, es[k])
  }

  /** The tree kind a native type is read from. */
  predicate KindFits(p: ProtoValue, t: NativeType) {
    match t
    case OptionalT(inner) => p.NullValue? || KindFits(p, inner)
    case BoolT => p.BoolValue?
    case Float64T => p.NumberValue? || p.StringValue?
    case VectorT(_) => p.ListValue?
    case ProductT(_, _) => p.ListValue?
    case PairT(s) => KindFits(p, s)
    case _ => p.StringValue?
  }

  /**
   * All the results, when every one is a success; otherwise the first
   * failure, as a loop that stops at the first error reports it.
   */
  function Collect<T, E>(rs: seq<Result<T, E>>): (r: Result<seq<T>, E>)
    ensures r.Success? <==> forall k :: 0 <= k < |rs| ==> rs[k].Success?
    ensures r.Success? ==> |r.value| == |rs| && forall k :: 0 <= k < |rs| ==> rs[k] == Success(r.value[k])
    ensures r.Failure? ==>
      exists j :: 0 <= j < |rs| && rs[j] == Failure(r.error) && forall k :: 0 <= k < j ==> rs[k].Success?
  {
    if |rs| == 0 then Success([])
    else if rs[0].Failure? then Failure(rs[0].error)
    else
      match Collect(rs[1..])
      case Success(rest) => Success([rs[0].value] + rest)
      case Failure(e) =>
        assert forall k :: 1 <= k < |rs| ==> rs[k] == rs[1..][k - 1];
        Failure(e)
  }

  /**
   * Reads the tree `p`, described by `d`, as a value of `t`: a null reads as
   * an absent optional and fails for any other type; every other kind must
   * be the one `t` is encoded as, and its payload must parse.
   */
  function Decode(d: Type, p: ProtoValue, t: NativeType): (r: Result<NativeValue, Error>)
    requires Matches(d, t)
    ensures r.Success? ==> KindFits(p, t) && HasType(r.value, t)
    ensures p.NullValue? ==> (r.Success? <==> t.OptionalT?)
    ensures r != Failure(TypeMismatch)
    decreases t, 1
  {
    if p.NullValue? then
      if t.OptionalT? then Success(OptionalN(None)) else Failure(NullValueError)
    else
      match t
      case OptionalT(inner) =>
        var x :- Decode(d, p, inner);
        Success(OptionalN(Some(x)))
      case BoolT =>
        if p.BoolValue? then Success(BoolN(p.boolean)) else Failure(KindMismatch)
      case Int64T =>
        if !p.StringValue? then Failure(KindMismatch)
        else if Decimal.ParseInt64(p.str).None? then Failure(InvalidInt64)
        else Success(Int64N(Decimal.ParseInt64(p.str).value))
      case Float64T =>
        var f :- DecodeFloat64(p);
        Success(Float64N(f))
      case StringT =>
        if p.StringValue? then Success(StringN(p.str)) else Failure(KindMismatch)
      case BytesT =>
        if !p.StringValue? then Failure(KindMismatch)
        else if Base64.Decode(p.str).Failure? then Failure(InvalidBase64)
        else Success(BytesN(Base64.Decode(p.str).value))
      case TimestampT =>
        if !p.StringValue? then Failure(KindMismatch)
        else if CivilTime.ParseTimestamp(p.str).None? then Failure(InvalidTimestamp)
        else Success(TimestampN(CivilTime.ParseTimestamp(p.str).value))
      case DateT =>
        if !p.StringValue? then Failure(KindMismatch)
        else if CivilTime.ParseDate(p.str).None? then Failure(InvalidDate)
        else Success(DateN(CivilTime.ParseDate(p.str).value))
      case VectorT(e) =>
        if !p.ListValue? then Failure(KindMismatch)
        else
          var items :- Collect(seq(|p.values|, k requires 0 <= k < |p.values| => Decode(d.element, p.values[k], e)));
          Success(VectorN(items))
      case PairT(_) => Failure(KindMismatch)
      case ProductT(es, _) =>
        if !p.ListValue? || |p.values| != |es| then Failure(KindMismatch)
        else
          var items :- Collect(seq(|es|, k requires 0 <= k < |es| => DecodeField(d.fields[k], p.values[k], es[k])));
          Success(ProductN(items))
  }

  /** Reads one struct field; a pair element takes its name from the descriptor. */
  function DecodeField(f: Field, p: ProtoValue, e: NativeType): (r: Result<NativeValue, Error>)
    requires if e.PairT? then Matches(f.ftype, e.second) else Matches(f.ftype, e)
    ensures r.Success? ==> HasType(r.value, e)
    ensures r.Success? && e.PairT? ==> r.value.name == f.name
    ensures r != Failure(TypeMismatch)
    decreases e, 2
  {
    if e.PairT? then
      var y :- Decode(f.ftype, p, e.second);
      Success(PairN(f.name, y))
    else Decode(f.ftype, p, e)
  }

  /** `v.get<T>()`: the shape check first, then the decoding of the tree. */
  function Get(v: Value, t: NativeType): (r: Result<NativeValue, Error>)
    ensures r == Failure(TypeMismatch) <==> !Matches(v.vtype, t)
    ensures r.Success? ==> Matches(v.vtype, t) && KindFits(v.pv, t) && HasType(r.value, t)
  {
    if Matches(v.vtype, t) then Decode(v.vtype, v.pv, t) else Failure(TypeMismatch)
  }

  /** A NaN double on the wire, in either of its spellings. */
  predicate IsNaNTree(p: ProtoValue) {
    p == NumberValue(NaN) || p == StringValue("NaN")
  }

  /**
   * Equality of two trees under one descriptor: structural, except that a
   * NaN double is equal to nothing, itself included.
   */
  predicate TreeEqual(d: Type, p1: ProtoValue, p2: ProtoValue) {
    match d
    case Float64Type => p1 == p2 && !IsNaNTree(p1)
    case ArrayType(e) =>
      if p1.ListValue? && p2.ListValue? then
        |p1.values| == |p2.values| &&
        forall k :: 0 <= k < |p1.values| ==> TreeEqual(e, p1.values[k], p2.values[k])
      else p1 == p2
    case StructType(fs) =>
      if p1.ListValue? && p2.ListValue? && |p1.values| == |fs| && |p2.values| == |fs| then
        forall k :: 0 <= k < |fs| ==> TreeEqual(fs[k].ftype, p1.values[k], p2.values[k])
      else p1 == p2
    case _ => p1 == p2
  }

  /** The tree holds a NaN double somewhere the descriptor says a double is. */
  predicate HasNaN(d: Type, p: ProtoValue) {
    match d
    case Float64Type => IsNaNTree(p)
    case ArrayType(e) => p.ListValue? && exists k :: 0 <= k < |p.values| && HasNaN(e, p.values[k])
    case StructType(fs) =>
      p.ListValue? && |p.values| == |fs| && exists k :: 0 <= k < |fs| && HasNaN(fs[k].ftype, p.values[k])
    case _ => false
  }

  /** `a == b` on Values: equal descriptors, field names included, and equal trees. */
  predicate Equal(a: Value, b: Value) {
    a.vtype == b.vtype && TreeEqual(a.vtype, a.pv, b.pv)
  }

  /** The native value holds a NaN double somewhere. */
  predicate ContainsNaN(x: NativeValue) {
    match x
    case Float64N(f) => f == NaN
    case OptionalN(o) => o.Some? && ContainsNaN(o.value)
    case VectorN(items) => exists k :: 0 <= k < |items| && ContainsNaN(items[k])
    case PairN(_, y) => ContainsNaN(y)
    case ProductN(items) => exists k :: 0 <= k < |items| && ContainsNaN(items[k])
    case _ => false
  }

  /**
   * The vector items of `x`, at every depth, have one descriptor each: the
   * condition under which every item is described by the first one.
   */
  predicate Uniform(t: NativeType, x: NativeValue)
    requires HasType(x, t)
  {
    match t
    case OptionalT(inner) => x.opt.Some? ==> Uniform(inner, x.opt.value)
    case VectorT(e) =>
      forall k :: 0 <= k < |x.items| ==> TypeOf(e, x.items[k]) == TypeOf(e, x.items[0]) && Uniform(e, x.items[k])
    case PairT(s) => Uniform(s, x.second)
    case ProductT(es, _) => forall k :: 0 <= k < |es| ==> Uniform(es[k], x.items[k])
    case _ => true
  }

  /**
   * `Value::Bytes` ordering: lexicographic over the bytes read as unsigned,
   * a proper prefix coming first.
   */
  predicate BytesLess(a: seq<Base64.byte>, b: seq<Base64.byte>) {
    if |b| == 0 then false
    else if |a| == 0 then true
    else if a[0] != b[0] then a[0] < b[0]
    else BytesLess(a[1..], b[1..])
  }
}
