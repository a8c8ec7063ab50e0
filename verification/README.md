# itkSmartPointer as a reference-counting state machine

This project models `itkSmartPointer<T>` from ITK (`Code/Common/itkSmartPointer.h`).
It is the intrusive reference-counting handle that keeps a wrapped object's
count in step with the handles that point at it. The handle holds one raw
pointer, `m_Pointer`. Its constructors, destructor and assignment operators call
the object's `Register()` or `UnRegister()` through two private guards that skip
null pointers.

The model is functional:

- `RefCount` (refcount.dfy) names objects by address and keeps a table of
  reference counts. `Addr` is a positive natural; 0 is the null pointer's
  `(void*)` value. A raw `T*` is `Option<Addr>`. A `Call` is one `Register(a)`
  or `UnRegister(a)` made on object `a`. `Run` applies calls to the table, and
  `Net` is the net change the calls make to one object's count.
- `SmartPointers` (smart_pointer.dfy) models the handle. The constructors
  from a pointer or a handle, and both assignments, return the handle they
  leave behind and the calls they made, in order. The default constructor
  returns only a handle, since it makes no call, and the destructor returns
  only its calls. The contracts
  say who is retained and released, in what order, and that no other object is
  touched. The accessors and comparisons are functions of the handle alone. They
  make no call, so they cannot change any count.
- `Balance` (balance.dfy) models a program that owns any number of live
  handles over a fixed set of objects. It applies a sequence of construct, copy,
  assign and destroy operations and proves the balance invariant: each object's
  count equals its initial count plus the number of live handles holding it.
  An operation on a missing slot, or a raw pointer to an object that is not in
  the count table, is undefined behaviour in C++. `Exec` returns `None` for it.

A raw pointer handed to the constructor could be read as already carrying a
unit of ownership. The code does not read it that way: it always calls
`Register()` on a non-null raw pointer (lines 55-59), and so does `FromRaw`.

## Model

| member | source | states |
|---|---|---|
| RefCount.Value | Code/Common/itkSmartPointer.h:104-131 | the `(void*)` value of a pointer is 0 exactly for null and otherwise its address |
| RefCount.ValueInjective | Code/Common/itkSmartPointer.h:104-131 | two raw pointers have the same `(void*)` value exactly when they are the same pointer |
| RefCount.Perform | Code/Common/itkSmartPointer.h:169-183 | the object's own `Register()`/`UnRegister()` moves its count by +1/-1 and leaves every other count and the set of objects unchanged |
| RefCount.Run | Code/Common/itkSmartPointer.h:169-183 | after a sequence of calls, each object's count is its old count plus its retains minus its releases, and the set of objects is unchanged |
| RefCount.NetConcat | Code/Common/itkSmartPointer.h:169-183 | the net effect of two consecutive runs of calls on the objects is the sum of their effects |
| SmartPointers.RegisterCalls | Code/Common/itkSmartPointer.h:169-175 | the private `Register()` makes no call for null and retains exactly the held object once otherwise |
| SmartPointers.UnRegisterCalls | Code/Common/itkSmartPointer.h:177-183 | the private `UnRegister()` makes no call for null and releases exactly the held object once otherwise |
| SmartPointers.Default | Code/Common/itkSmartPointer.h:38-41 | the default constructor holds no object, so it accounts for no count |
| SmartPointers.FromRaw | Code/Common/itkSmartPointer.h:55-59 | construction from `p` holds `p`, makes no release, and raises exactly `p`'s count by 1 when `p` is non-null and no count when it is null |
| SmartPointers.Copy | Code/Common/itkSmartPointer.h:46-50 | the copy holds the source's pointer and raises exactly that object's count by 1 when non-null |
| SmartPointers.Destroy | Code/Common/itkSmartPointer.h:64-67 | the destructor makes no call for a null handle and otherwise lowers exactly the held object's count by 1 |
| SmartPointers.AssignRaw | Code/Common/itkSmartPointer.h:144-153 | the handle ends holding `p`; assigning the held pointer makes no call; otherwise only the old object is released and only `p` retained, no release after a retain, and each count moves by the change in whether the handle holds it |
| SmartPointers.Assign | Code/Common/itkSmartPointer.h:136-139 | handle assignment ends equal to the other handle, is a no-op on itself, and has the same ordered, exact accounting as raw assignment |
| SmartPointers.GetPointer | Code/Common/itkSmartPointer.h:95-99 | `GetPointer()` returns the pointer that rebuilds this very handle |
| SmartPointers.Arrow | Code/Common/itkSmartPointer.h:72-75 | `operator->` on a non-null handle reaches exactly the object the handle holds |
| SmartPointers.AsRaw | Code/Common/itkSmartPointer.h:80-90 | both `operator T*` overloads return the pointer that rebuilds this very handle |
| SmartPointers.Less | Code/Common/itkSmartPointer.h:104-107 | `operator<` is strict (never true of equal handles), and a null handle is below exactly the non-null ones |
| SmartPointers.Greater | Code/Common/itkSmartPointer.h:112-115 | `operator>` is the converse of `operator<` |
| SmartPointers.LessEq | Code/Common/itkSmartPointer.h:120-123 | `operator<=` holds exactly when `operator<` holds or both handles hold the same pointer |
| SmartPointers.GreaterEq | Code/Common/itkSmartPointer.h:128-131 | `operator>=` is the converse of `operator<=` |
| SmartPointers.SelfAssignment | Code/Common/itkSmartPointer.h:136-153 | `h = h` and `h = h.GetPointer()` leave the handle as it was and make no call |
| SmartPointers.AssignRawChangesTarget | Code/Common/itkSmartPointer.h:146-151 | assigning a different pointer makes one call per non-null end: the first releases the old object, the last retains the new one |
| SmartPointers.AccessorsRoundTrip | Code/Common/itkSmartPointer.h:46-99 | `GetPointer()` and `operator T*` of a handle built from `p`, or copied from one, yield `p`; `operator->` yields the object `p` names when it is non-null |
| SmartPointers.ComparisonsAgree | Code/Common/itkSmartPointer.h:104-131 | `<=` is the negation of `>`, `>=` of `<`, `>` and `>=` are the converses of `<` and `<=`, and `<` is `<=` between different handles |
| SmartPointers.LessEqTotalOrder | Code/Common/itkSmartPointer.h:120-123 | `<=` on handles is reflexive, antisymmetric, transitive and total, with the null handle least |
| Balance.Apply | Code/Common/itkSmartPointer.h:38-153 | a constructor appends one handle (null, holding `p`, or equal to the copy source) and leaves the others, including the copy source, as they were; an assignment changes only its destination slot; a destruction removes only its slot, keeping the others in order |
| Balance.ApplyPreservesBalance | Code/Common/itkSmartPointer.h:38-153 | each construct, copy, assign or destroy step keeps every count equal to its initial value plus its number of live holders |
| Balance.ExecPreservesBalance | Code/Common/itkSmartPointer.h:38-183 | the balance invariant holds after any sequence of handle operations |
| Balance.InitiallyBalanced | Code/Common/itkSmartPointer.h:38-41 | a program with no handles is balanced |
| Balance.NoOverRelease | Code/Common/itkSmartPointer.h:64-67 | in a balanced program no count is ever below its initial value |
| Balance.NoLeak | Code/Common/itkSmartPointer.h:64-67 | once every handle is destroyed, every count is back to its initial value |
| Balance.SameTargetAssignmentIsNoOp | Code/Common/itkSmartPointer.h:136-153 | self-assignment and same-target assignment leave the whole program, counts and handles, unchanged |

## Left out

- `Print` and `operator<<` (lines 158-163, 185-189): stream output. `Print` also dereferences `m_Pointer` without a null check.
- The wrapped type's own `Register()`/`UnRegister()` bodies and its destruction when the count reaches zero: these are calls into `T`. They are modelled as an increment or decrement of the object's entry in the count table, and objects never leave the table.
- RefCount.Perform: the count is an unbounded integer; the width of `T`'s counter and any overflow are not modelled.
- Dereferencing a null handle through `operator->` (lines 72-75): the code does no check, so `Arrow` requires a non-null handle rather than modelling the undefined behaviour.
- The hazard of the release-before-retain order in assignment (lines 148-150): if the old object holds the only reference to the new one, its `UnRegister()` can destroy the new object before `Register()` reaches it. Objects here own no handles and are never destroyed, so `ReleasesFirst` proves the order but not that it is safe.
- Thread safety: the handle performs no locking and no atomic operation, so interleaved updates of a count are not modelled.
- The comparisons use addresses as naturals, not the platform's `void*` ordering.
- `Modules/Core/SpatialObjects/include/itkBlobSpatialObject.h`: `ClosestPoint`, `IsInside` and `ComputeObjectBoundingBox` are only declared there (lines 94, 97-98, 101). Their bodies live in `itkBlobSpatialObject.hxx`, which is not part of this model. The inline `GetPoint`/`GetNumberOfPoints` accessors (lines 82-91) are plain vector indexing. The factory macros and `PrintSelf` are plumbing.
