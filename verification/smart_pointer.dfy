/**
  `itkSmartPointer<T>`: a handle holding zero or one raw pointer that keeps the
  pointed-to object's reference count in step with its own lifetime.

  Each operation is a pure function. The constructors from a pointer or a
  handle and both assignments return the handle they leave behind together
  with the calls they make on objects, in order; the destructor returns only
  its calls. `RefCount.Run` turns calls into a change of the count table.
 */
module SmartPointers {
  import opened Wrappers
  import opened RefCount

  /** The handle; `pointer` is the private `m_Pointer`. */
  datatype SmartPointer = SmartPointer(pointer: RawPtr)

  /** The handle an operation leaves behind and the calls it made, in order. */
  datatype Step = Step(self: SmartPointer, calls: seq<Call>)

  /** 1 when `h` holds `a`, 0 otherwise. */
  function Holds(h: SmartPointer, a: Addr): nat
  {
    if h.pointer == Some(a) then 1 else 0
  }

  /** No release in `calls` comes after a retain. */
  predicate ReleasesFirst(calls: seq<Call>)
  {
    forall i, j :: 0 <= i < j < |calls| ==> !(calls[i].Register? && calls[j].UnRegister?)
  }

  /** Every release in `calls` is of `released`, and every retain is of `retained`. */
  predicate OnlyTouches(calls: seq<Call>, released: RawPtr, retained: RawPtr)
  {
    forall k :: 0 <= k < |calls| ==>
      (calls[k].UnRegister? ==> released == Some(calls[k].obj)) &&
      (calls[k].Register? ==> retained == Some(calls[k].obj))
  }

  /** The private `Register()`: retains the object only when the pointer is non-null. */
  function RegisterCalls(p: RawPtr): (calls: seq<Call>)
    ensures calls == [] <==> p.None?
    ensures OnlyTouches(calls, None, p)
    ensures forall a: Addr :: Net(calls, a) == (if p == Some(a) then 1 else 0)
  {
    match p
    case None => []
    case Some(a) => [Register(a)]
  }

  /** The private `UnRegister()`: releases the object only when the pointer is non-null. */
  function UnRegisterCalls(p: RawPtr): (calls: seq<Call>)
    ensures calls == [] <==> p.None?
    ensures OnlyTouches(calls, p, None)
    ensures forall a: Addr :: Net(calls, a) == (if p == Some(a) then -1 else 0)
  {
    match p
    case None => []
    case Some(a) => [UnRegister(a)]
  }

  /** The default constructor: a null handle. */
  function Default(): (h: SmartPointer)
    ensures forall a: Addr :: Holds(h, a) == 0
  {
    SmartPointer(None)
  }

  /** Construction from a raw pointer: holds `p` and retains it once if non-null. */
  function FromRaw(p: RawPtr): (r: Step)
    ensures r.self.pointer == p
    ensures OnlyTouches(r.calls, None, p)
    ensures forall a: Addr :: Net(r.calls, a) == Holds(r.self, a)
  {
    var h := SmartPointer(p);
    Step(h, RegisterCalls(h.pointer))
  }

  /** Copy construction: holds what `other` holds and retains it once if non-null. */
  function Copy(other: SmartPointer): (r: Step)
    ensures r.self == other
    ensures OnlyTouches(r.calls, None, other.pointer)
    ensures forall a: Addr :: Net(r.calls, a) == Holds(other, a)
  {
    var h := SmartPointer(other.pointer);
    Step(h, RegisterCalls(h.pointer))
  }

  /** The destructor: releases the held object once if non-null. */
  function Destroy(h: SmartPointer): (calls: seq<Call>)
    ensures calls == [] <==> h.pointer.None?
    ensures OnlyTouches(calls, h.pointer, None)
    ensures forall a: Addr :: Net(calls, a) == -(Holds(h, a) as int)
  {
    UnRegisterCalls(h.pointer)
  }

  /**
    Assignment of a raw pointer. Assigning the pointer already held does
    nothing; otherwise the old object is released, then `p` is stored and retained.
   */
  function AssignRaw(h: SmartPointer, p: RawPtr): (r: Step)
    ensures r.self.pointer == p
    ensures h.pointer == p ==> r == Step(h, [])
    ensures ReleasesFirst(r.calls)
    ensures OnlyTouches(r.calls, h.pointer, p)
    ensures forall a: Addr :: Net(r.calls, a) == Holds(r.self, a) - Holds(h, a)
  {
    if h.pointer != p then
      var released := UnRegisterCalls(h.pointer);
      var h' := SmartPointer(p);
      var calls := released + RegisterCalls(h'.pointer);
      assert forall a: Addr :: Net(calls, a) == Net(released, a) + Net(RegisterCalls(p), a) by {
        forall a { NetConcat(released, RegisterCalls(p), a); }
      }
      Step(h', calls)
    else
      Step(h, [])
  }

  /** Handle-to-handle assignment. */
  function Assign(h: SmartPointer, other: SmartPointer): (r: Step)
    ensures r.self == other
    ensures h == other ==> r == Step(h, [])
    ensures ReleasesFirst(r.calls)
    ensures OnlyTouches(r.calls, h.pointer, other.pointer)
    ensures forall a: Addr :: Net(r.calls, a) == Holds(other, a) - Holds(h, a)
  {
    AssignRaw(h, GetPointer(other))
  }

  /** `GetPointer()`: the stored pointer, with no call on the object. */
  function GetPointer(h: SmartPointer): (p: RawPtr)
    ensures FromRaw(p).self == h
  {
    h.pointer
  }

  /**
    `operator->`: the object whose member is accessed. The code does no null
    check, so a non-null handle is the caller's obligation.
   */
  function Arrow(h: SmartPointer): (a: Addr)
    requires h.pointer.Some?
    ensures Holds(h, a) == 1
  {
    h.pointer.value
  }

  /** The two `operator T*` conversions, which have the same body. */
  function AsRaw(h: SmartPointer): (p: RawPtr)
    ensures FromRaw(p).self == h
  {
    h.pointer
  }

  /**
    `operator<`: compares the `(void*)` values of the stored pointers. It is
    strict, and a null handle is below every non-null one.
   */
  function Less(x: SmartPointer, y: SmartPointer): (r: bool)
    ensures r ==> x != y
    ensures x.pointer.None? ==> (r <==> y.pointer.Some?)
  {
    Value(x.pointer) < Value(y.pointer)
  }

  /** `operator>`: the converse of `operator<`. */
  function Greater(x: SmartPointer, y: SmartPointer): (r: bool)
    ensures r <==> Less(y, x)
  {
    Value(x.pointer) > Value(y.pointer)
  }

  /** `operator<=`: `operator<` or the same pointer. */
  function LessEq(x: SmartPointer, y: SmartPointer): (r: bool)
    ensures r <==> Less(x, y) || x == y
  {
    Value(x.pointer) <= Value(y.pointer)
  }

  /** `operator>=`: the converse of `operator<=`. */
  function GreaterEq(x: SmartPointer, y: SmartPointer): (r: bool)
    ensures r <==> LessEq(y, x)
  {
    Value(x.pointer) >= Value(y.pointer)
  }

  /** Assigning a handle to itself, or a raw pointer to the handle already holding it, makes no call. */
  lemma SelfAssignment(h: SmartPointer)
    ensures Assign(h, h) == Step(h, [])
    ensures AssignRaw(h, GetPointer(h)) == Step(h, [])
  {
  }

  /**
    Changing targets: one call per non-null end, the first releasing the old
    object and the last retaining the new one.
   */
  lemma AssignRawChangesTarget(h: SmartPointer, p: RawPtr)
    requires h.pointer != p
    ensures |AssignRaw(h, p).calls| == (if h.pointer.Some? then 1 else 0) + (if p.Some? then 1 else 0)
    ensures h.pointer.Some? ==> AssignRaw(h, p).calls[0] == UnRegister(h.pointer.value)
    ensures p.Some? ==> AssignRaw(h, p).calls[|AssignRaw(h, p).calls| - 1] == Register(p.value)
  {
  }

  /** Every accessor yields the pointer the handle was constructed from. */
  lemma AccessorsRoundTrip(p: RawPtr)
    ensures GetPointer(FromRaw(p).self) == p
    ensures p.Some? ==> Arrow(FromRaw(p).self) == p.value
    ensures AsRaw(FromRaw(p).self) == p
    ensures GetPointer(Copy(FromRaw(p).self).self) == p
  {
  }

  /** The four comparisons agree with each other. */
  lemma ComparisonsAgree(x: SmartPointer, y: SmartPointer)
    ensures LessEq(x, y) <==> !Greater(x, y)
    ensures GreaterEq(x, y) <==> !Less(x, y)
    ensures Greater(x, y) <==> Less(y, x)
    ensures GreaterEq(x, y) <==> LessEq(y, x)
    ensures Less(x, y) <==> LessEq(x, y) && x != y
  {
  }

  /** `operator<=` is a total order on handles, and the null handle is its least element. */
  lemma LessEqTotalOrder()
    ensures forall x :: LessEq(x, x)
    ensures forall x, y :: LessEq(x, y) && LessEq(y, x) ==> x == y
    ensures forall x, y, z :: LessEq(x, y) && LessEq(y, z) ==> LessEq(x, z)
    ensures forall x, y :: LessEq(x, y) || LessEq(y, x)
    ensures forall x :: LessEq(Default(), x)
  {
  }
}
