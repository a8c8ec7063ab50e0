/**
  A program that owns any number of `itkSmartPointer` handles over a fixed set
  of objects. Each step constructs, copies, assigns or destroys one handle.
  The balance invariant: every object's count is its initial count plus the
  number of live handles holding it.
 */
module Balance {
  import opened Wrappers
  import opened RefCount
  import opened SmartPointers

  /** The count table and the handles that are alive, one per slot. */
  datatype World = World(counts: Counts, handles: seq<SmartPointer>)

  /** One handle operation; slots index `World.handles`. */
  datatype Op =
    | NewDefault
    | NewFromRaw(p: RawPtr)
    | NewCopy(src: nat)
    | AssignRawTo(dst: nat, p: RawPtr)
    | AssignFrom(dst: nat, src: nat)
    | Delete(slot: nat)

  /** The number of handles in `hs` that hold `a`. */
  function Holders(hs: seq<SmartPointer>, a: Addr): (n: nat)
    ensures n <= |hs|
    decreases |hs|
  {
    if |hs| == 0 then 0 else Holders(hs[..|hs| - 1], a) + Holds(hs[|hs| - 1], a)
  }

  /** Every live handle points at null or at a live object. */
  predicate Wf(w: World)
  {
    forall i :: 0 <= i < |w.handles| ==> Live(w.counts, w.handles[i].pointer)
  }

  /** `op` names existing slots and live objects; anything else is undefined behaviour in the program. */
  predicate Enabled(w: World, op: Op)
  {
    match op
    case NewDefault => true
    case NewFromRaw(p) => Live(w.counts, p)
    case NewCopy(src) => src < |w.handles|
    case AssignRawTo(dst, p) => dst < |w.handles| && Live(w.counts, p)
    case AssignFrom(dst, src) => dst < |w.handles| && src < |w.handles|
    case Delete(slot) => slot < |w.handles|
  }

  /** The calls of a step on a live target, from a live handle, are all on live objects. */
  lemma StepCallsLive(c: Counts, calls: seq<Call>, released: RawPtr, retained: RawPtr)
    requires Live(c, released) && Live(c, retained)
    requires OnlyTouches(calls, released, retained)
    ensures AllLive(c, calls)
  {
  }

  /** A new handle enters slot `|handles|` after its constructor's calls. */
  function Push(w: World, s: Step): (w': World)
    requires Wf(w) && Live(w.counts, s.self.pointer) && AllLive(w.counts, s.calls)
    ensures Wf(w')
    ensures w'.counts.Keys == w.counts.Keys
    ensures w'.handles == w.handles + [s.self]
  {
    var w' := World(Run(w.counts, s.calls), w.handles + [s.self]);
    assert forall i :: 0 <= i < |w.handles| ==> w'.handles[i] == w.handles[i];
    w'
  }

  /** The handle in slot `dst` becomes `s.self` after the assignment's calls. */
  function Replace(w: World, dst: nat, s: Step): (w': World)
    requires Wf(w) && dst < |w.handles| && Live(w.counts, s.self.pointer) && AllLive(w.counts, s.calls)
    ensures Wf(w')
    ensures w'.counts.Keys == w.counts.Keys
    ensures |w'.handles| == |w.handles|
    ensures forall i :: 0 <= i < |w.handles| && i != dst ==> w'.handles[i] == w.handles[i]
    ensures w'.handles[dst] == s.self
  {
    World(Run(w.counts, s.calls), w.handles[dst := s.self])
  }

  /** The handle in slot `slot` is destroyed and leaves the sequence. */
  function Pop(w: World, slot: nat): (w': World)
    requires Wf(w) && slot < |w.handles|
    ensures Wf(w')
    ensures w'.counts.Keys == w.counts.Keys
    ensures |w'.handles| == |w.handles| - 1
    ensures forall i :: 0 <= i < |w'.handles| ==>
      w'.handles[i] == (if i < slot then w.handles[i] else w.handles[i + 1])
  {
    var calls := Destroy(w.handles[slot]);
    StepCallsLive(w.counts, calls, w.handles[slot].pointer, None);
    var w' := World(Run(w.counts, calls), w.handles[..slot] + w.handles[slot + 1..]);
    assert forall i :: 0 <= i < |w'.handles| ==>
      w'.handles[i] == (if i < slot then w.handles[i] else w.handles[i + 1]);
    w'
  }

  /** A constructor step: the new handle is added after the existing ones. */
  function Construct(w: World, op: Op): (w': World)
    requires Wf(w) && Enabled(w, op)
    requires op.NewDefault? || op.NewFromRaw? || op.NewCopy?
    ensures Wf(w')
    ensures w'.counts.Keys == w.counts.Keys
    ensures |w'.handles| == |w.handles| + 1 && w'.handles[..|w.handles|] == w.handles
    ensures op.NewDefault? ==> w'.handles[|w.handles|].pointer.None?
    ensures op.NewFromRaw? ==> w'.handles[|w.handles|].pointer == op.p
    ensures op.NewCopy? ==> w'.handles[|w.handles|] == w.handles[op.src]
  {
    match op
    case NewDefault =>
      Push(w, Step(Default(), []))
    case NewFromRaw(p) =>
      var s := FromRaw(p);
      StepCallsLive(w.counts, s.calls, None, p);
      Push(w, s)
    case NewCopy(src) =>
      var s := Copy(w.handles[src]);
      StepCallsLive(w.counts, s.calls, None, w.handles[src].pointer);
      Push(w, s)
  }

  /** An assignment step: only the destination slot changes. */
  function Reassign(w: World, op: Op): (w': World)
    requires Wf(w) && Enabled(w, op)
    requires op.AssignRawTo? || op.AssignFrom?
    ensures Wf(w')
    ensures w'.counts.Keys == w.counts.Keys
    ensures |w'.handles| == |w.handles|
    ensures forall i :: 0 <= i < |w.handles| && i != op.dst ==> w'.handles[i] == w.handles[i]
    ensures op.AssignRawTo? ==> w'.handles[op.dst].pointer == op.p
    ensures op.AssignFrom? ==> w'.handles[op.dst] == w.handles[op.src]
  {
    match op
    case AssignRawTo(dst, p) =>
      var s := AssignRaw(w.handles[dst], p);
      StepCallsLive(w.counts, s.calls, w.handles[dst].pointer, p);
      Replace(w, dst, s)
    case AssignFrom(dst, src) =>
      var s := Assign(w.handles[dst], w.handles[src]);
      StepCallsLive(w.counts, s.calls, w.handles[dst].pointer, w.handles[src].pointer);
      Replace(w, dst, s)
  }

  /**
    One step of the program. A constructor adds one handle after the existing
    ones, an assignment changes only its destination slot, and a destruction
    closes the gap its slot leaves; no other handle changes.
   */
  function Apply(w: World, op: Op): (w': World)
    requires Wf(w) && Enabled(w, op)
    ensures Wf(w')
    ensures w'.counts.Keys == w.counts.Keys
    ensures op.NewDefault? || op.NewFromRaw? || op.NewCopy? ==>
      |w'.handles| == |w.handles| + 1 && w'.handles[..|w.handles|] == w.handles
    ensures op.NewDefault? ==> w'.handles[|w.handles|].pointer.None?
    ensures op.NewFromRaw? ==> w'.handles[|w.handles|].pointer == op.p
    ensures op.NewCopy? ==> w'.handles[|w.handles|] == w.handles[op.src]
    ensures op.AssignRawTo? || op.AssignFrom? ==>
      |w'.handles| == |w.handles| &&
      forall i :: 0 <= i < |w.handles| && i != op.dst ==> w'.handles[i] == w.handles[i]
    ensures op.AssignRawTo? ==> w'.handles[op.dst].pointer == op.p
    ensures op.AssignFrom? ==> w'.handles[op.dst] == w.handles[op.src]
    ensures op.Delete? ==>
      |w'.handles| == |w.handles| - 1 &&
      forall i :: 0 <= i < |w'.handles| ==>
        w'.handles[i] == (if i < op.slot then w.handles[i] else w.handles[i + 1])
  {
    if op.NewDefault? || op.NewFromRaw? || op.NewCopy? then Construct(w, op)
    else if op.AssignRawTo? || op.AssignFrom? then Reassign(w, op)
    else Pop(w, op.slot)
  }

  /** Runs `ops` in order; `None` when some operation is not enabled where it is reached. */
  function Exec(w: World, ops: seq<Op>): Option<World>
    requires Wf(w)
    decreases |ops|
  {
    if |ops| == 0 then Some(w)
    else if !Enabled(w, ops[0]) then None
    else Exec(Apply(w, ops[0]), ops[1..])
  }

  /** The balance invariant relative to the counts `init` the objects had before any handle existed. */
  predicate Balanced(init: Counts, w: World)
  {
    && Wf(w)
    && w.counts.Keys == init.Keys
    && forall a: Addr :: a in init ==> w.counts[a] == init[a] + Holders(w.handles, a)
  }

  lemma HoldersAppend(hs: seq<SmartPointer>, h: SmartPointer, a: Addr)
    ensures Holders(hs + [h], a) == Holders(hs, a) + Holds(h, a)
  {
  }

  lemma {:induction false} HoldersUpdate(hs: seq<SmartPointer>, i: nat, h: SmartPointer, a: Addr)
    requires i < |hs|
    ensures Holders(hs[i := h], a) == Holders(hs, a) - Holds(hs[i], a) + Holds(h, a)
    decreases |hs|
  {
    var n := |hs| - 1;
    if i == n {
      assert hs[i := h][..n] == hs[..n];
    } else {
      assert hs[i := h][..n] == hs[..n][i := h];
      HoldersUpdate(hs[..n], i, h, a);
    }
  }

  lemma {:induction false} HoldersRemove(hs: seq<SmartPointer>, i: nat, a: Addr)
    requires i < |hs|
    ensures Holders(hs[..i] + hs[i + 1..], a) == Holders(hs, a) - Holds(hs[i], a)
    decreases |hs|
  {
    var n := |hs| - 1;
    var rest := hs[..i] + hs[i + 1..];
    if i == n {
      assert rest == hs[..n];
    } else {
      var init := hs[..n];
      assert rest[..n - 1] == init[..i] + init[i + 1..];
      assert rest[n - 1] == hs[n];
      HoldersRemove(init, i, a);
    }
  }

  /** A program that has created no handle yet is balanced. */
  lemma InitiallyBalanced(init: Counts)
    ensures Balanced(init, World(init, []))
  {
  }

  /** A constructor whose calls retain exactly what the new handle holds keeps the program balanced. */
  lemma PushPreservesBalance(init: Counts, w: World, s: Step)
    requires Balanced(init, w) && Live(w.counts, s.self.pointer) && AllLive(w.counts, s.calls)
    requires forall a: Addr :: Net(s.calls, a) == Holds(s.self, a)
    ensures Balanced(init, Push(w, s))
  {
  }

  /** An assignment whose calls account for the change of the slot's target keeps the program balanced. */
  lemma {:induction false} ReplacePreservesBalance(init: Counts, w: World, dst: nat, s: Step)
    requires Balanced(init, w) && dst < |w.handles|
    requires Live(w.counts, s.self.pointer) && AllLive(w.counts, s.calls)
    requires forall a: Addr :: Net(s.calls, a) == Holds(s.self, a) - Holds(w.handles[dst], a)
    ensures Balanced(init, Replace(w, dst, s))
  {
    forall a: Addr | a in init
      ensures Replace(w, dst, s).counts[a] == init[a] + Holders(Replace(w, dst, s).handles, a)
    {
      HoldersUpdate(w.handles, dst, s.self, a);
    }
  }

  /** Destroying a live handle keeps the program balanced. */
  lemma {:induction false} PopPreservesBalance(init: Counts, w: World, slot: nat)
    requires Balanced(init, w) && slot < |w.handles|
    ensures Balanced(init, Pop(w, slot))
  {
    forall a: Addr | a in init
      ensures Pop(w, slot).counts[a] == init[a] + Holders(Pop(w, slot).handles, a)
    {
      HoldersRemove(w.handles, slot, a);
    }
  }

  /** Every enabled step preserves the balance invariant. */
  lemma {:induction false} ApplyPreservesBalance(init: Counts, w: World, op: Op)
    requires Balanced(init, w) && Enabled(w, op)
    ensures Balanced(init, Apply(w, op))
  {
    match op
    case NewDefault =>
      PushPreservesBalance(init, w, Step(Default(), []));
    case NewFromRaw(p) =>
      var s := FromRaw(p);
      StepCallsLive(w.counts, s.calls, None, p);
      PushPreservesBalance(init, w, s);
    case NewCopy(src) =>
      var s := Copy(w.handles[src]);
      StepCallsLive(w.counts, s.calls, None, w.handles[src].pointer);
      PushPreservesBalance(init, w, s);
    case AssignRawTo(dst, p) =>
      var s := AssignRaw(w.handles[dst], p);
      StepCallsLive(w.counts, s.calls, w.handles[dst].pointer, p);
      ReplacePreservesBalance(init, w, dst, s);
    case AssignFrom(dst, src) =>
      var s := Assign(w.handles[dst], w.handles[src]);
      StepCallsLive(w.counts, s.calls, w.handles[dst].pointer, w.handles[src].pointer);
      ReplacePreservesBalance(init, w, dst, s);
    case Delete(slot) =>
      PopPreservesBalance(init, w, slot);
  }

  /** The balance invariant holds after any run of construct, copy, assign and destroy operations. */
  lemma {:induction false} ExecPreservesBalance(init: Counts, w: World, ops: seq<Op>)
    requires Balanced(init, w)
    ensures Exec(w, ops).Some? ==> Balanced(init, Exec(w, ops).value)
    decreases |ops|
  {
    if |ops| > 0 && Enabled(w, ops[0]) {
      ApplyPreservesBalance(init, w, ops[0]);
      ExecPreservesBalance(init, Apply(w, ops[0]), ops[1..]);
    }
  }

  /** No over-release: a balanced program never drops a count below its initial value. */
  lemma NoOverRelease(init: Counts, w: World, a: Addr)
    requires Balanced(init, w) && a in init
    ensures w.counts[a] >= init[a]
  {
  }

  /** No leak: once every handle is destroyed, every count is back to its initial value. */
  lemma NoLeak(init: Counts, w: World)
    requires Balanced(init, w) && |w.handles| == 0
    ensures w.counts == init
  {
  }

  /** Self-assignment and same-target assignment leave the whole program unchanged. */
  lemma SameTargetAssignmentIsNoOp(w: World, i: nat)
    requires Wf(w) && i < |w.handles|
    ensures Apply(w, AssignFrom(i, i)) == w
    ensures Apply(w, AssignRawTo(i, w.handles[i].pointer)) == w
  {
  }
}
