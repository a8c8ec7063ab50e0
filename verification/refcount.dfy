/**
  The object side of intrusive reference counting, seen from the handle.

  Objects are named by their address; the wrapped type's own `Register()` and
  `UnRegister()` are abstracted to an increment or decrement of that object's
  entry in a table of reference counts.
 */
module RefCount {
  import opened Wrappers

  /** An object address. Zero is reserved for the null pointer. */
  type Addr = a: nat | 0 < a witness 1

  /** A raw `T*`: null, or the address of an object. */
  type RawPtr = Option<Addr>

  /** The numeric value of a raw pointer as the `(void*)` casts see it. */
  function Value(p: RawPtr): (v: nat)
    ensures v == 0 <==> p.None?
    ensures p.Some? ==> v == p.value
  {
    match p
    case None => 0
    case Some(a) => a
  }

  /** Two raw pointers have the same `(void*)` value exactly when they are the same pointer. */
  lemma ValueInjective(p: RawPtr, q: RawPtr)
    ensures Value(p) == Value(q) <==> p == q
  {
  }

  /** A call the handle makes on the object it points at. */
  datatype Call = Register(obj: Addr) | UnRegister(obj: Addr)

  /** The reference count of every live object. */
  type Counts = map<Addr, int>

  /** A raw pointer that is null or names a live object. */
  predicate Live(c: Counts, p: RawPtr)
  {
    p.None? || p.value in c
  }

  /** Every call in `calls` is made on a live object. */
  predicate AllLive(c: Counts, calls: seq<Call>)
  {
    forall k :: 0 <= k < |calls| ==> calls[k].obj in c
  }

  /** The net change that `calls` make to the count of `a`: its retains minus its releases. */
  function Net(calls: seq<Call>, a: Addr): int
  {
    (multiset(calls)[Register(a)] as int) - multiset(calls)[UnRegister(a)]
  }

  /** The object's own `Register()` or `UnRegister()`, as a change to the count table. */
  function Perform(c: Counts, call: Call): (c': Counts)
    requires call.obj in c
    ensures c'.Keys == c.Keys
    ensures forall a: Addr :: a in c ==> c'[a] == c[a] + Net([call], a)
  {
    match call
    case Register(a) => c[a := c[a] + 1]
    case UnRegister(a) => c[a := c[a] - 1]
  }

  /** The count table after the objects receive `calls`, in order. */
  function Run(c: Counts, calls: seq<Call>): (c': Counts)
    requires AllLive(c, calls)
    ensures c'.Keys == c.Keys
    ensures forall a: Addr :: a in c ==> c'[a] == c[a] + Net(calls, a)
    decreases |calls|
  {
    if |calls| == 0 then c
    else
      assert calls == [calls[0]] + calls[1..];
      Run(Perform(c, calls[0]), calls[1..])
  }

  /** Net changes add up over consecutive call sequences. */
  lemma NetConcat(xs: seq<Call>, ys: seq<Call>, a: Addr)
    ensures Net(xs + ys, a) == Net(xs, a) + Net(ys, a)
  {
    assert multiset(xs + ys) == multiset(xs) + multiset(ys);
  }
}
