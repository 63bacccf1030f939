/**
 * The concrete Values of the unit tests, stated as lemmas about the model:
 * which reads succeed, which fail and how, which Values compare equal, and
 * what the wire forms look like.
 */
module ValueExamples {
  import opened Wrappers
  import opened Values
  import opened ValueProperties
  import Base64
  import Decimal
  import CivilTime
  import TupleUtils

  /** An unnamed product of the given element types, as `std::tuple` is. */
  function Tuple(es: seq<NativeType>): (t: NativeType)
    ensures t.ProductT? && TupleUtils.NumElements(t.shape) == |es|
    ensures |es| > 0 ==> !TupleUtils.IsNamedStructCorrected(t.shape)
  {
    var t := ProductT(es, TupleUtils.Shape(true, |es|, map[]));
    assert !TupleUtils.ElementNameIsConvertibleToString(t.shape, 0);
    t
  }

  // ---------------------------------------------------------------------
  // Mixing types
  // ---------------------------------------------------------------------

  /** A bool is not an int64 and an int64 is not a bool, null or not; typed nulls differ. */
  lemma MixingTypes()
    ensures Get(MakeValue(BoolT, BoolN(false)), Int64T) == Failure(TypeMismatch)
    ensures Get(MakeValue(Int64T, Int64N(0)), BoolT) == Failure(TypeMismatch)
    ensures Get(MakeNullValue(BoolT), Int64T) == Failure(TypeMismatch)
    ensures Get(MakeNullValue(Int64T), BoolT) == Failure(TypeMismatch)
    ensures !Equal(MakeNullValue(BoolT), MakeValue(BoolT, BoolN(false)))
    ensures !Equal(MakeValue(Int64T, Int64N(0)), MakeValue(BoolT, BoolN(false)))
    ensures !Equal(MakeNullValue(Int64T), MakeNullValue(BoolT))
  {
  }

  /** An int64 array is not a double array, and their nulls differ. */
  lemma SpannerArray()
    ensures var vi := MakeValue(VectorT(Int64T), VectorN([Int64N(1), Int64N(2), Int64N(3)]));
      var vd := MakeValue(VectorT(Float64T), VectorN([Float64N(Finite(1.0)), Float64N(Finite(2.0)), Float64N(Finite(3.0))]));
      Get(vi, VectorT(Float64T)) == Failure(TypeMismatch) &&
      Get(vd, VectorT(Int64T)) == Failure(TypeMismatch) &&
      !Equal(vi, vd)
  {
    var vi := MakeValue(VectorT(Int64T), VectorN([Int64N(1), Int64N(2), Int64N(3)]));
    var vd := MakeValue(VectorT(Float64T), VectorN([Float64N(Finite(1.0)), Float64N(Finite(2.0)), Float64N(Finite(3.0))]));
    assert vi.vtype == ArrayType(Int64Type) && vd.vtype == ArrayType(Float64Type);
  }

  /** Null arrays keep their element type: they differ and do not convert. */
  lemma NullSpannerArray()
    ensures !Equal(MakeNullValue(VectorT(Int64T)), MakeNullValue(VectorT(Float64T)))
    ensures Get(MakeNullValue(VectorT(Int64T)), VectorT(Float64T)) == Failure(TypeMismatch)
  {
  }

  // ---------------------------------------------------------------------
  // Structs: names are kept by equality and ignored by get
  // ---------------------------------------------------------------------

  const T1: NativeType := Tuple([BoolT, Int64T])
  const T2: NativeType := Tuple([BoolT, PairT(Int64T)])
  const Tup1: NativeValue := ProductN([BoolN(false), Int64N(123)])

  function NamedTup(name: string): (x: NativeValue)
    ensures HasType(x, T2)
  {
    var x := ProductN([BoolN(false), PairN(name, Int64N(123))]);
    assert HasType(x.items[1], PairT(Int64T));
    x
  }

  lemma ExampleTypes(name: string)
    ensures ValidType(T1) && HasType(Tup1, T1) && Uniform(T1, Tup1)
    ensures ValidType(T2) && Uniform(T2, NamedTup(name))
  {
    assert HasType(Tup1.items[1], Int64T);
  }

  lemma ProductField(es: seq<NativeType>, shape: TupleUtils.Shape, x: NativeValue, k: nat)
    requires HasType(x, ProductT(es, shape)) && k < |es|
    ensures |TypeOf(ProductT(es, shape), x).fields| == |es|
    ensures TypeOf(ProductT(es, shape), x).fields[k] == Field(FieldName(shape, k, x.items[k]), TypeOf(es[k], x.items[k]))
  {
  }

  /** The unnamed tuple gets unnamed fields; the pair field gets the pair's name. */
  lemma ExampleDescriptors(name: string)
    ensures MakeValue(T1, Tup1).vtype == StructType([Field("", BoolType), Field("", Int64Type)])
    ensures MakeValue(T2, NamedTup(name)).vtype == StructType([Field("", BoolType), Field(name, Int64Type)])
  {
    ExampleTypes(name);
    assert !TupleUtils.IsNamedStructCorrected(T2.shape);
    assert FieldName(T2.shape, 0, BoolN(false)) == "";
    assert FieldName(T2.shape, 1, PairN(name, Int64N(123))) == name;
    var d := TypeOf(T2, NamedTup(name));
    assert T2.elements == [BoolT, PairT(Int64T)];
    assert NamedTup(name).items == [BoolN(false), PairN(name, Int64N(123))];
    ProductField(T2.elements, T2.shape, NamedTup(name), 0);
    ProductField(T2.elements, T2.shape, NamedTup(name), 1);
    assert TypeOf(PairT(Int64T), PairN(name, Int64N(123))) == Int64Type;
    assert |d.fields| == 2 && d.fields[0] == Field("", BoolType) && d.fields[1] == Field(name, Int64Type);
    assert d.fields == [Field("", BoolType), Field(name, Int64Type)];
  }

  /** The pair field encodes as its second member. */
  lemma PairEncodesAsItsValue(name: string)
    ensures Encode(T2, NamedTup(name)) == Encode(T1, Tup1)
  {
    ExampleTypes(name);
  }

  /** Values that differ only in a field name are unequal. */
  lemma StructNamesAreKeptByEquality()
    ensures var v1, v2, v3 := MakeValue(T1, Tup1), MakeValue(T2, NamedTup("f2")), MakeValue(T2, NamedTup("Other"));
      !Equal(v1, v2) && !Equal(v2, v3) && !Equal(v1, v3)
  {
    ExampleDescriptors("f2");
    ExampleDescriptors("Other");
  }

  /** T1 is T2 with its pair stripped, and `tup1` is `tup2` with its pair stripped. */
  lemma StrippedExamples(name: string)
    ensures StripPairs(T2) == T1 && StripPairValues(NamedTup(name)) == Tup1
    ensures BlankPairNames(NamedTup(name)) == NamedTup("")
  {
    assert StripPairs(T2).elements == T1.elements;
    assert StripPairValues(NamedTup(name)).items == Tup1.items;
    assert BlankPairNames(NamedTup(name)).items == NamedTup("").items;
  }

  /** The named tuple reads as the unnamed one. */
  lemma NamedReadsAsUnnamed()
    ensures Get(MakeValue(T2, NamedTup("f2")), T1) == Success(Tup1)
  {
    ExampleTypes("f2");
    StrippedExamples("f2");
    NamedTupleReadsAsUnnamed(T2, NamedTup("f2"));
  }

  /** The unnamed tuple reads as the named one; the name read back is the one on the wire, "". */
  lemma UnnamedReadsAsNamed()
    ensures Get(MakeValue(T1, Tup1), T2) == Success(NamedTup(""))
  {
    ExampleTypes("f2");
    StrippedExamples("f2");
    UnnamedTupleReadsAsNamed(T2, NamedTup("f2"));
  }

  /** The named tuple reads back as itself, name included. */
  lemma NamedReadsAsItself()
    ensures Get(MakeValue(T2, NamedTup("f2")), T2) == Success(NamedTup("f2"))
  {
    ExampleTypes("f2");
    GetMakeValue(T2, NamedTup("f2"));
  }

  /** An array of structs is not a struct, and the empty tuple is not an array. */
  lemma StructShapesAreChecked()
    ensures var t3 := T2;
      var v4 := MakeValue(VectorT(t3), VectorN([NamedTup("age")]));
      var v5 := MakeValue(Tuple([]), ProductN([]));
      Get(v4, t3) == Failure(TypeMismatch) &&
      Get(v4, T1) == Failure(TypeMismatch) &&
      Get(v5, VectorT(t3)) == Failure(TypeMismatch) &&
      Get(v4, Tuple([])) == Failure(TypeMismatch)
  {
  }

  // ---------------------------------------------------------------------
  // Wire forms
  // ---------------------------------------------------------------------

  /** An int64 travels as its decimal string, an array as the list of its encoded items. */
  lemma Int64AndArrayWireForms()
    ensures Encode(Int64T, Int64N(42)) == StringValue("42")
    ensures MakeValue(VectorT(Int64T), VectorN([Int64N(1), Int64N(2), Int64N(3)]))
         == Value(ArrayType(Int64Type), ListValue([StringValue("1"), StringValue("2"), StringValue("3")]))
  {
    assert Encode(Int64T, Int64N(1)) == StringValue("1");
    assert Encode(Int64T, Int64N(2)) == StringValue("2");
    assert Encode(Int64T, Int64N(3)) == StringValue("3");
  }

  /** The doubles that are not finite travel as tokens. */
  lemma SpecialDoubleWireForms()
    ensures Encode(Float64T, Float64N(PositiveInfinity)) == StringValue("Infinity")
    ensures Encode(Float64T, Float64N(NegativeInfinity)) == StringValue("-Infinity")
    ensures Encode(Float64T, Float64N(NaN)) == StringValue("NaN")
  {
  }

  const MixedType: NativeType := Tuple([Float64T, PairT(Int64T)])
  const MixedRow: NativeValue := ProductN([Float64N(Finite(3.14)), PairN("foo", Int64N(42))])

  lemma MixedIsValid()
    ensures ValidType(MixedType) && HasType(MixedRow, MixedType)
  {
    assert HasType(MixedRow.items[1], PairT(Int64T));
  }

  /** An unnamed field is named "" in the struct type and a pair field by its name. */
  lemma StructFieldNames()
    ensures ValidType(MixedType) && HasType(MixedRow, MixedType) &&
      var d := MakeValue(MixedType, MixedRow).vtype;
      d.StructType? && |d.fields| == 2 &&
      d.fields[0] == Field("", Float64Type) && d.fields[1] == Field("foo", Int64Type)
  {
    MixedIsValid();
    ProductField(MixedType.elements, MixedType.shape, MixedRow, 0);
    ProductField(MixedType.elements, MixedType.shape, MixedRow, 1);
  }

  /** The row goes on the wire as a list of the fields' values; names do not. */
  lemma StructWireForm()
    ensures HasType(MixedRow, MixedType)
    ensures var p := Encode(MixedType, MixedRow);
      p.ListValue? && |p.values| == 2 &&
      p.values[0] == NumberValue(Finite(3.14)) && p.values[1] == StringValue("42")
  {
    MixedIsValid();
    assert Encode(Int64T, Int64N(42)) == StringValue("42");
    ProductItem(MixedType.elements, MixedType.shape, MixedRow, 0);
    ProductItem(MixedType.elements, MixedType.shape, MixedRow, 1);
  }

  /**
   * The names of the test's named struct, as its bridge supplies them. Its
   * accessor is declared for every index up to and including 4, one past
   * the last field; the name at 4 reads past the end of the name table, so
   * only its type, a C string, is modelled, and its text is never used.
   */
  const NamedStructShape: TupleUtils.Shape :=
    TupleUtils.Shape(true, 4, map[0 := TupleUtils.StringName("id"), 1 := TupleUtils.StringName("FirstName"),
                                  2 := TupleUtils.StringName("LastName"), 3 := TupleUtils.StringName("BirthDate"),
                                  4 := TupleUtils.StringName("")])

  /** The test's struct passes both the named-struct test as written and the corrected one. */
  lemma NamedStructShapeIsNamed()
    ensures TupleUtils.IsNamedStructAsWritten(NamedStructShape)
    ensures TupleUtils.IsNamedStructCorrected(NamedStructShape)
  {
    var s := NamedStructShape;
    forall i | 0 <= i < TupleUtils.NumElements(s) ensures TupleUtils.ElementNameIsConvertibleToString(s, i) {
    }
    assert TupleUtils.HasAllElementNamesImpl(s, 4) by {
      assert TupleUtils.HasElementName(s, 0) && TupleUtils.HasElementName(s, 1) && TupleUtils.HasElementName(s, 2);
      assert TupleUtils.HasElementName(s, 3) && TupleUtils.HasElementName(s, 4);
    }
  }

  const NamedStructType: NativeType := ProductT([Int64T, StringT, StringT, DateT], NamedStructShape)
  const NamedStructRow: NativeValue :=
    ProductN([Int64N(1), StringN("Elena"), StringN("Campbell"), DateN(CivilTime.Epoch)])

  lemma NamedStructIsValid()
    ensures ValidType(NamedStructType) && HasType(NamedStructRow, NamedStructType)
  {
    NamedStructShapeIsNamed();
    assert HasType(NamedStructRow.items[3], DateT);
  }

  lemma ProductItem(es: seq<NativeType>, shape: TupleUtils.Shape, x: NativeValue, k: nat)
    requires HasType(x, ProductT(es, shape)) && k < |es|
    ensures Encode(ProductT(es, shape), x).values[k] == Encode(es[k], x.items[k])
  {
  }

  /** A named struct takes its field names from the bridge. */
  lemma NamedStructDescriptor()
    ensures ValidType(NamedStructType) && HasType(NamedStructRow, NamedStructType) &&
      var d := MakeValue(NamedStructType, NamedStructRow).vtype;
      d.StructType? && |d.fields| == 4 &&
      d.fields[0] == Field("id", Int64Type) && d.fields[1] == Field("FirstName", StringType) &&
      d.fields[2] == Field("LastName", StringType) && d.fields[3] == Field("BirthDate", DateType)
  {
    NamedStructIsValid();
    NamedStructShapeIsNamed();
    var es, s, x := NamedStructType.elements, NamedStructShape, NamedStructRow;
    ProductField(es, s, x, 0);
    ProductField(es, s, x, 1);
    ProductField(es, s, x, 2);
    ProductField(es, s, x, 3);
  }

  /** The epoch date and the int64 one, as they travel. */
  lemma EpochRendering()
    ensures Encode(DateT, DateN(CivilTime.Epoch)) == StringValue("1970-01-01")
    ensures Encode(Int64T, Int64N(1)) == StringValue("1")
  {
    CivilTime.Pow10Two();
    CivilTime.Pow10Four();
    assert Decimal.PadDigits(1970, 4) == "1970";
    assert Decimal.PadDigits(1, 2) == "01";
  }

  /** A named struct carries its values in order. */
  lemma NamedStructTree()
    ensures HasType(NamedStructRow, NamedStructType)
    ensures var p := Encode(NamedStructType, NamedStructRow);
      p.ListValue? && |p.values| == 4 &&
      p.values[0] == StringValue("1") && p.values[1] == StringValue("Elena") &&
      p.values[2] == StringValue("Campbell") && p.values[3] == StringValue("1970-01-01")
  {
    NamedStructIsValid();
    var es, s, x := NamedStructType.elements, NamedStructShape, NamedStructRow;
    EpochRendering();
    ProductItem(es, s, x, 0);
    ProductItem(es, s, x, 1);
    ProductItem(es, s, x, 2);
    ProductItem(es, s, x, 3);
  }

  // ---------------------------------------------------------------------
  // Bad trees and NaN
  // ---------------------------------------------------------------------

  /** Int64 strings that do not parse, and kinds that are not strings, fail. */
  lemma GetBadInt()
    ensures Get(Value(Int64Type, StringValue("123blah")), Int64T) == Failure(InvalidInt64)
    ensures Get(Value(Int64Type, StringValue("blah")), Int64T) == Failure(InvalidInt64)
    ensures Get(Value(Int64Type, StringValue("")), Int64T) == Failure(InvalidInt64)
    ensures Get(Value(Int64Type, BoolValue(true)), Int64T) == Failure(KindMismatch)
    ensures Get(Value(Int64Type, NumberValue(Finite(0.0))), Int64T) == Failure(KindMismatch)
    ensures Get(Value(Int64Type, NullValue), Int64T) == Failure(NullValueError)
  {
    Decimal.Int64ParserRejects();
  }

  /** A bool is never read from a number or a string. */
  lemma GetBadBool()
    ensures Get(Value(BoolType, NumberValue(Finite(0.0))), BoolT) == Failure(KindMismatch)
    ensures Get(Value(BoolType, StringValue("hello")), BoolT) == Failure(KindMismatch)
    ensures Get(Value(BoolType, NullValue), BoolT) == Failure(NullValueError)
  {
  }

  /** A double is never read from a bool or prose, present or optional. */
  lemma GetBadDouble()
    ensures Get(Value(Float64Type, BoolValue(true)), Float64T) == Failure(KindMismatch)
    ensures Get(Value(Float64Type, StringValue("bad string")), Float64T) == Failure(InvalidFloat64)
    ensures Get(Value(Float64Type, BoolValue(true)), OptionalT(Float64T)) == Failure(KindMismatch)
    ensures Get(Value(Float64Type, StringValue("blah")), OptionalT(Float64T)) == Failure(InvalidFloat64)
  {
  }

  /** An array or a struct is never read from a scalar. */
  lemma GetBadContainers()
    ensures Get(Value(ArrayType(Float64Type), StringValue("blah")), VectorT(Float64T)) == Failure(KindMismatch)
    ensures Get(Value(ArrayType(Float64Type), BoolValue(true)), VectorT(Float64T)) == Failure(KindMismatch)
    ensures Get(Value(StructType([Field("", BoolType)]), StringValue("blah")), Tuple([BoolT])) == Failure(KindMismatch)
    ensures Get(Value(StructType([Field("", BoolType)]), NumberValue(Finite(0.0))), Tuple([BoolT])) == Failure(KindMismatch)
  {
  }

  /** Bytes whose tree is not base64 differ from the original and fail to read. */
  lemma BytesDecodingError(bytes: seq<Base64.byte>)
    ensures var v := MakeValue(BytesT, BytesN(bytes));
      var bad := FromProto(ToProto(v).0, StringValue("not base64 encoded data"));
      !Equal(v, bad) && Get(bad, BytesT) == Failure(InvalidBase64)
  {
    Base64.RejectsProse();
    Base64.DecodeEncode(bytes);
    var v := MakeValue(BytesT, BytesN(bytes));
    assert v.pv == StringValue(Base64.Encode(bytes));
    assert Base64.Encode(bytes) != "not base64 encoded data";
  }

  /** A NaN reads back as NaN, yet its Value equals neither itself nor its round trip. */
  lemma DoubleNaN()
    ensures var v := MakeValue(Float64T, Float64N(NaN));
      Get(v, Float64T) == Success(Float64N(NaN)) && !Equal(v, v) &&
      !Equal(FromProto(ToProto(v).0, ToProto(v).1), v)
  {
  }
}
