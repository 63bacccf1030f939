/**
 * The product-type "reflection bridge": what the library can learn about a
 * fixed-size heterogeneous container (a tuple, a pair, or a user struct that
 * specialises the tuple-size trait and supplies element-name accessors).
 *
 * In C++ these facts are compile-time properties detected by overload
 * resolution. Here they are an explicit capability record, `Shape`: whether
 * the element count is declared, what it is, and which indices answer the
 * element-name accessor, with a name that is or is not convertible to a
 * string. Elements are a `seq` when they are only read and an `array` when a
 * traversal updates them in place.
 */
module TupleUtils {
  import opened Wrappers

  /** What the element-name accessor yields at one index. */
  datatype ElementName = StringName(name: string) | NonStringName

  /**
   * The compile-time capabilities of a product type.
   *  - `sized`: the tuple-size trait is specialised for the type;
   *  - `size`: its value (the real element count of such a type);
   *  - `names`: the indices at which the element-name accessor can be called.
   * The accessor may answer indices past the last element (a templated
   * accessor is declared for every index, whatever its body rejects).
   */
  datatype Shape = Shape(sized: bool, size: nat, names: map<nat, ElementName>)

  /** The count is known exactly when the tuple-size trait is specialised. */
  predicate HasNumElements(s: Shape) {
    s.sized
  }

  /** The element count, or 0 when the type does not declare one. */
  function NumElements(s: Shape): (n: nat)
    ensures n > 0 ==> HasNumElements(s)
    ensures HasNumElements(s) ==> n == s.size
  {
    if s.sized then s.size else 0
  }

  /** The element-name accessor at index `i`, when the type provides it there. */
  function GetElementName(s: Shape, i: nat): (r: Option<ElementName>)
    ensures r.Some? <==> HasElementName(s, i)
    ensures r.Some? ==> r.value == s.names[i]
  {
    if i in s.names then Some(s.names[i]) else None
  }

  // ---------------------------------------------------------------------
  // The named-struct test, as the header writes it.
  // ---------------------------------------------------------------------

  predicate HasElementName(s: Shape, i: nat) {
    i in s.names
  }

  /** Names present at `i`, `i - 1`, ..., 0. */
  predicate HasAllElementNamesImpl(s: Shape, i: nat)
    decreases i
  {
    if i == 0 then HasElementName(s, 0)
    else HasElementName(s, i) && HasAllElementNamesImpl(s, i - 1)
  }

  predicate ElementNameIsConvertibleToString(s: Shape, i: nat) {
    i in s.names && s.names[i].StringName?
  }

  /** The string check as written: index `i`, then `i - 1` and no further. */
  predicate AllElementNamesAreStringsImpl(s: Shape, i: nat) {
    if i == 0 then ElementNameIsConvertibleToString(s, 0)
    else if ElementNameIsConvertibleToString(s, i) then ElementNameIsConvertibleToString(s, i - 1)
    else false
  }

  /** Both checks start at index `NumElements`, one past the last element. */
  predicate AllElementNamesAreStrings(s: Shape) {
    if HasAllElementNamesImpl(s, NumElements(s)) then AllElementNamesAreStringsImpl(s, NumElements(s))
    else false
  }

  predicate IsNamedStructAsWritten(s: Shape) {
    if HasNumElements(s) then AllElementNamesAreStrings(s) else false
  }

  // ---------------------------------------------------------------------
  // The named-struct test as documented: a declared count and a string
  // name at every element index.
  // ---------------------------------------------------------------------

  predicate IsNamedStruct(s: Shape) {
    HasNumElements(s) &&
    forall i :: 0 <= i < NumElements(s) ==> ElementNameIsConvertibleToString(s, i)
  }

  /**
   * The recursion the header evidently intends: indices `i - 1` down to 0
   * each have a name convertible to a string, and nothing is probed at `i`.
   */
  predicate AllElementNamesAreStringsBelow(s: Shape, i: nat)
    decreases i
  {
    if i == 0 then true
    else ElementNameIsConvertibleToString(s, i - 1) && AllElementNamesAreStringsBelow(s, i - 1)
  }

  lemma {:induction false} StringsBelowCoversEveryIndex(s: Shape, i: nat)
    ensures AllElementNamesAreStringsBelow(s, i) <==>
      forall j :: 0 <= j < i ==> ElementNameIsConvertibleToString(s, j)
    decreases i
  {
    if i > 0 {
      StringsBelowCoversEveryIndex(s, i - 1);
    }
  }

  /** The corrected named-struct test: a declared count and the corrected recursion from it. */
  predicate IsNamedStructCorrected(s: Shape)
    ensures IsNamedStructCorrected(s) <==> IsNamedStruct(s)
  {
    StringsBelowCoversEveryIndex(s, NumElements(s));
    HasNumElements(s) && AllElementNamesAreStringsBelow(s, NumElements(s))
  }

  /** The presence check, as written, covers every index from `i` down to 0. */
  lemma {:induction false} HasAllElementNamesCoversEveryIndex(s: Shape, i: nat)
    ensures HasAllElementNamesImpl(s, i) <==> forall j: nat :: j <= i ==> j in s.names
    decreases i
  {
    if i > 0 {
      HasAllElementNamesCoversEveryIndex(s, i - 1);
      if forall j: nat :: j <= i - 1 ==> j in s.names {
        if i in s.names {
          assert forall j: nat :: j <= i ==> j in s.names by {
            forall j: nat | j <= i ensures j in s.names {
              if j < i { assert j <= i - 1; }
            }
          }
        }
      }
    }
  }

  /**
   * What the as-written test does establish: names at every index up to and
   * including `NumElements`, and string names at the last two of those.
   */
  lemma IsNamedStructAsWrittenMeans(s: Shape)
    requires IsNamedStructAsWritten(s)
    ensures HasNumElements(s)
    ensures forall j: nat :: j <= NumElements(s) ==> j in s.names
    ensures ElementNameIsConvertibleToString(s, NumElements(s))
    ensures NumElements(s) > 0 ==> ElementNameIsConvertibleToString(s, NumElements(s) - 1)
  {
    HasAllElementNamesCoversEveryIndex(s, NumElements(s));
  }

  /**
   * The two tests agree on every type whose accessor also answers, with a
   * string, the index one past the end and whose string check is not
   * fooled: for such types the documented test implies the written one.
   */
  lemma NamedStructImpliesAsWritten(s: Shape)
    requires IsNamedStruct(s)
    requires ElementNameIsConvertibleToString(s, NumElements(s))
    ensures IsNamedStructAsWritten(s)
  {
    var n := NumElements(s);
    forall j: nat | j <= n ensures j in s.names {
      if j < n {
        assert ElementNameIsConvertibleToString(s, j);
      }
    }
    HasAllElementNamesCoversEveryIndex(s, n);
    if n > 0 {
      assert ElementNameIsConvertibleToString(s, n - 1);
    }
  }

  /**
   * As written, a struct whose accessor answers exactly its own indices is
   * not recognised: two elements named "id" and "name" fail because index 2
   * has no name.
   */
  lemma PresenceCheckProbesPastTheEnd()
    ensures var s := Shape(true, 2, map[0 := StringName("id"), 1 := StringName("name")]);
      IsNamedStructCorrected(s) && !IsNamedStructAsWritten(s)
  {
    var s := Shape(true, 2, map[0 := StringName("id"), 1 := StringName("name")]);
    assert !HasElementName(s, 2);
    forall i: nat | i < NumElements(s) ensures ElementNameIsConvertibleToString(s, i) {
      assert i == 0 || i == 1;
    }
  }

  /**
   * As written, the string check looks at indices N and N - 1 only: a
   * three-element struct whose first name is not a string is still accepted.
   */
  lemma StringCheckSkipsEarlyIndices()
    ensures var s := Shape(true, 3, map[0 := NonStringName, 1 := StringName("a"),
                                      2 := StringName("b"), 3 := StringName("c")]);
      IsNamedStructAsWritten(s) && !IsNamedStructCorrected(s)
  {
    var s := Shape(true, 3, map[0 := NonStringName, 1 := StringName("a"),
                               2 := StringName("b"), 3 := StringName("c")]);
    assert HasAllElementNamesImpl(s, 3) by {
      assert HasElementName(s, 0) && HasElementName(s, 1) && HasElementName(s, 2) && HasElementName(s, 3);
    }
    assert !ElementNameIsConvertibleToString(s, 0);
  }

  /** A type without a declared count is never a named struct, either way. */
  lemma UnsizedIsNeverNamed(s: Shape)
    requires !HasNumElements(s)
    ensures NumElements(s) == 0
    ensures !IsNamedStruct(s) && !IsNamedStructAsWritten(s)
  {
  }

  // ---------------------------------------------------------------------
  // Traversals.
  // ---------------------------------------------------------------------

  /**
   * The result of calling `f` on each element in index order, threading the
   * extra argument (an output buffer, say) from one call to the next.
   */
  function FoldElements<E, A>(f: (E, A) -> A, es: seq<E>, args: A): A
    decreases |es|
  {
    if |es| == 0 then args else f(es[|es| - 1], FoldElements(f, es[..|es| - 1], args))
  }

  /** The same, with the element name passed before each element. */
  function FoldNamed<E, A>(f: (string, E, A) -> A, ns: seq<string>, es: seq<E>, args: A): A
    requires |ns| == |es|
    decreases |es|
  {
    if |es| == 0 then args
    else f(ns[|ns| - 1], es[|es| - 1], FoldNamed(f, ns[..|ns| - 1], es[..|es| - 1], args))
  }

  /** The string names of indices `0 .. n - 1`, for a shape that has them. */
  function NamesUpTo(s: Shape, n: nat): (ns: seq<string>)
    requires forall i :: 0 <= i < n ==> ElementNameIsConvertibleToString(s, i)
    ensures |ns| == n
    ensures forall i :: 0 <= i < n ==> ElementNameIsConvertibleToString(s, i) && s.names[i] == StringName(ns[i])
  {
    var ns := seq(n, i requires 0 <= i < n => assert ElementNameIsConvertibleToString(s, i); s.names[i].name);
    assert forall i :: 0 <= i < n ==> ElementNameIsConvertibleToString(s, i) && ns[i] == s.names[i].name;
    ns
  }

  /**
   * Calls `f` on elements `0 .. NumElements - 1` in order and returns the
   * final state of the forwarded argument; past `NumElements` it stops.
   */
  method ForEach<E, A>(s: Shape, es: seq<E>, f: (E, A) -> A, args: A) returns (out: A)
    requires |es| == s.size
    ensures out == FoldElements(f, es[..NumElements(s)], args)
  {
    var n := NumElements(s);
    out := args;
    var i := 0;
    while i < n
      invariant 0 <= i <= n
      invariant out == FoldElements(f, es[..i], args)
    {
      assert es[..i + 1][..i] == es[..i];
      out := f(es[i], out);
      i := i + 1;
    }
  }

  /** Calls `f` with (name, element) for indices `0 .. NumElements - 1` in order. */
  method ForEachNamed<E, A>(s: Shape, es: seq<E>, f: (string, E, A) -> A, args: A) returns (out: A)
    requires |es| == s.size
    requires forall i :: 0 <= i < NumElements(s) ==> ElementNameIsConvertibleToString(s, i)
    ensures out == FoldNamed(f, NamesUpTo(s, NumElements(s)), es[..NumElements(s)], args)
  {
    var n := NumElements(s);
    var ns := NamesUpTo(s, n);
    out := args;
    var i := 0;
    while i < n
      invariant 0 <= i <= n
      invariant out == FoldNamed(f, ns[..i], es[..i], args)
    {
      assert es[..i + 1][..i] == es[..i];
      assert ns[..i + 1][..i] == ns[..i];
      assert ElementNameIsConvertibleToString(s, i);
      var name := GetElementName(s, i).value.name;
      assert name == ns[i];
      out := f(name, es[i], out);
      i := i + 1;
    }
    assert ns[..n] == ns;
  }

  /** Applies `f` to every element of a sequence. */
  function Map<E, T>(g: E -> T, es: seq<E>): (r: seq<T>)
    ensures |r| == |es|
    ensures forall i :: 0 <= i < |es| ==> r[i] == g(es[i])
  {
    seq(|es|, i requires 0 <= i < |es| => g(es[i]))
  }

  /**
   * With a functor that appends `g(e)` to an output buffer, `ForEach`
   * leaves the buffer holding its old contents followed by the mapped
   * elements, in index order.
   */
  lemma {:induction false} ForEachPushBack<E, T>(g: E -> T, es: seq<E>, out: seq<T>)
    ensures FoldElements((e: E, acc: seq<T>) => acc + [g(e)], es, out) == out + Map(g, es)
    decreases |es|
  {
    if |es| > 0 {
      var init := es[..|es| - 1];
      ForEachPushBack(g, init, out);
      assert Map(g, es) == Map(g, init) + [g(es[|es| - 1])];
    }
  }

  /** The two-entries-per-element buffer a named push-back functor builds. */
  function Interleave<T>(ns: seq<string>, vs: seq<T>, show: T -> string): (r: seq<string>)
    requires |ns| == |vs|
    ensures |r| == 2 * |ns|
    ensures forall i :: 0 <= i < |ns| ==> r[2 * i] == ns[i] && r[2 * i + 1] == show(vs[i])
    decreases |ns|
  {
    if |ns| == 0 then []
    else
      var r := Interleave(ns[..|ns| - 1], vs[..|vs| - 1], show) + [ns[|ns| - 1], show(vs[|vs| - 1])];
      r
  }

  /**
   * With a functor that appends the name and then the rendered element,
   * `ForEachNamed` produces name_0, element_0, name_1, element_1, ...
   */
  lemma {:induction false} ForEachNamedPushBack<E>(show: E -> string, ns: seq<string>, es: seq<E>, out: seq<string>)
    requires |ns| == |es|
    ensures FoldNamed((n: string, e: E, acc: seq<string>) => acc + [n, show(e)], ns, es, out)
         == out + Interleave(ns, es, show)
    decreases |es|
  {
    if |es| > 0 {
      ForEachNamedPushBack(show, ns[..|ns| - 1], es[..|es| - 1], out);
    }
  }

  /** A type without a declared count, or with no elements, makes no calls. */
  lemma ForEachEmptyMakesNoCalls<E, A>(s: Shape, es: seq<E>, f: (E, A) -> A, args: A)
    requires NumElements(s) == 0
    ensures FoldElements(f, es[..NumElements(s)], args) == args
  {
  }

  /**
   * Calls a mutating functor on elements `0 .. NumElements - 1` in order:
   * each of those elements becomes `f` of itself and the rest are untouched.
   */
  method ForEachMutate<E>(s: Shape, es: array<E>, f: E -> E)
    requires es.Length == s.size
    modifies es
    ensures es[..] == Map(f, old(es[..])[..NumElements(s)]) + old(es[..])[NumElements(s)..]
  {
    var n := NumElements(s);
    var i := 0;
    while i < n
      invariant 0 <= i <= n
      invariant forall k :: 0 <= k < i ==> es[k] == f(old(es[k]))
      invariant forall k :: i <= k < es.Length ==> es[k] == old(es[k])
    {
      es[i] := f(es[i]);
      i := i + 1;
    }
  }

  /** `ForEach` with the `add_one` functor turns the tuple (1, 2, 3) into (2, 3, 4). */
  method AddOneToEach() returns (r: seq<int>)
    ensures r == [2, 3, 4]
  {
    var tup := new int[3];
    tup[0], tup[1], tup[2] := 1, 2, 3;
    assert tup[..] == [1, 2, 3];
    ForEachMutate(Shape(true, 3, map[]), tup, (x: int) => x + 1);
    r := tup[..];
  }

  /** Assigning through the reference to element `i` changes that element only. */
  method AssignElement<E>(es: array<E>, i: nat, x: E)
    requires i < es.Length
    modifies es
    ensures es[..] == old(es[..])[i := x]
    ensures es[i] == x
    ensures forall k :: 0 <= k < es.Length && k != i ==> es[k] == old(es[k])
  {
    es[i] := x;
  }
}
