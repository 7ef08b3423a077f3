/** The cursor extension methods of the runtime detour layer. They bind
    objects into a typed `ReferenceStore<T>` (one store per element type),
    register the matching `Clear` with the context's dispose actions, and emit
    the instructions that read a bound object back at run time.

    The typed stores all hold `Option<HostObject>` here; a store object stands
    for one `T`, and `elemType` names that `T` where an instruction mentions
    it. */
module RuntimeExtensions {
  import opened Instructions
  import opened CecIL
  import Stubs
  import ReferenceStores

  type Store = ReferenceStores.ReferenceStore<Option<HostObject>>

  /** The instructions `EmitGetReference<T>(id)` emits: push the id, call the
      store's `Get`. The typed `Get` already returns a `T`, so nothing is
      unboxed, whatever `T` is. */
  function StoreLoad(id: nat, elemType: TypeRef): (r: seq<Op>)
    ensures |r| == 2 && r[0] == Op(Ldc_I4, IntOperand(id)) && r[1] == Op(Call, MethodOperand(StoreGetMethod(elemType)))
    ensures forall k :: 0 <= k < |r| ==> r[k].opcode != Unbox_Any
  {
    [Op(Ldc_I4, IntOperand(id)), Op(Call, MethodOperand(StoreGetMethod(elemType)))]
  }

  /** `AddReference<T>(context, t)`: stores `t` under a new id (the store's
      count before the call) and registers the clear of exactly that id with
      the context. Nothing in the stream changes. */
  method AddReference(context: Context, store: Store, t: Option<HostObject>) returns (id: nat)
    requires store.Valid()
    modifies context, store, store.arr
    ensures store.Valid()
    ensures id == old(store.count) && store.count == id + 1 && id < store.arr.Length
    ensures store.arr[..store.count] == old(store.arr[..store.count]) + [t] && store.Get(id) == t
    ensures store.arr == old(store.arr) || fresh(store.arr)
    ensures context.onDispose == old(context.onDispose) + [ClearStored(store, id)]
    ensures context.instrs == old(context.instrs) && context.labels == old(context.labels)
    ensures context.nextUid == old(context.nextUid)
  {
    id := store.Store(t);
    context.onDispose := context.onDispose + [ClearStored(store, id)];
  }

  /** `EmitGetReference<T>(id)`: inserts the store load for `id` at the
      cursor; the cursor stays after it, and the pending labels now target
      the load's first instruction. */
  method EmitGetReference(cursor: Cursor, elemType: TypeRef, id: nat)
    requires cursor.Valid()
    modifies cursor, cursor.context, set l | l in cursor.pending
    ensures cursor.Valid() && cursor.next == old(cursor.next) && cursor.pending == []
    ensures cursor.managedIds == old(cursor.managedIds)
    ensures InsertedAt(old(cursor.context.instrs), cursor.context.instrs, old(cursor.Index()), StoreLoad(id, elemType))
    ensures cursor.Index() == old(cursor.Index()) + 2
    ensures forall l :: l in old(cursor.pending) ==>
              l.target == Some(Instr(old(cursor.context.nextUid), Op(Ldc_I4, IntOperand(id))))
    ensures cursor.context.onDispose == old(cursor.context.onDispose)
    ensures cursor.context.labels == old(cursor.context.labels)
  {
    ghost var s0 := cursor.context.instrs;
    ghost var i0 := cursor.Index();
    var load := Op(Ldc_I4, IntOperand(id));
    InsertedAtNone(s0, i0);
    cursor.EmitNext(load, s0, i0, []);
    assert [] + [load] == [load];
    var call := Op(Call, MethodOperand(StoreGetMethod(elemType)));
    cursor.EmitNext(call, s0, i0, [load]);
    assert [load] + [call] == StoreLoad(id, elemType);
  }

  /** `EmitReference<T>(t)`: `AddReference` through the cursor's context,
      then the store load of the new id. */
  method EmitReference(cursor: Cursor, store: Store, elemType: TypeRef, t: Option<HostObject>) returns (id: nat)
    requires cursor.Valid() && store.Valid()
    modifies cursor, cursor.context, store, store.arr, set l | l in cursor.pending
    ensures cursor.Valid() && store.Valid() && cursor.next == old(cursor.next) && cursor.pending == []
    ensures cursor.managedIds == old(cursor.managedIds)
    ensures id == old(store.count) && store.count == id + 1 && id < store.arr.Length
    ensures store.arr[..store.count] == old(store.arr[..store.count]) + [t] && store.Get(id) == t
    ensures store.arr == old(store.arr) || fresh(store.arr)
    ensures cursor.context.onDispose == old(cursor.context.onDispose) + [ClearStored(store, id)]
    ensures InsertedAt(old(cursor.context.instrs), cursor.context.instrs, old(cursor.Index()), StoreLoad(id, elemType))
    ensures cursor.Index() == old(cursor.Index()) + 2
    ensures forall l :: l in old(cursor.pending) ==>
              l.target == Some(Instr(old(cursor.context.nextUid), Op(Ldc_I4, IntOperand(id))))
    ensures cursor.context.labels == old(cursor.context.labels)
  {
    id := AddReference(cursor.context, store, t);
    EmitGetReference(cursor, elemType, id);
  }

  /** `EmitDelegate<T>(cb)`. The delegate is bound in `T`'s store and loaded.
      A delegate that casts to a parameterless `Action` is then invoked
      directly with one `callvirt Invoke`: no stub is built and nothing else
      is stored. Any other delegate gets an adapter stub (see `Stubs`), which
      is pinned by binding it in the store of method handles, and the call
      site gets one `call` of the stub. `stubHandle` stands for the method
      the stub is compiled to. */
  method EmitDelegate(cursor: Cursor, delStore: Store, methodStore: Store, cb: HostObject, delType: TypeRef,
                      castsToAction: bool, params: seq<TypeRef>, ret: TypeRef, stubHandle: HostObject)
    returns (id: nat, stub: Option<Stubs.Stub>)
    requires cursor.Valid() && delStore.Valid() && methodStore.Valid()
    requires delStore != methodStore && delStore.arr != methodStore.arr
    modifies cursor, cursor.context, set l | l in cursor.pending
    modifies delStore, delStore.arr, methodStore, methodStore.arr
    ensures cursor.Valid() && cursor.next == old(cursor.next) && cursor.pending == []
    ensures cursor.managedIds == old(cursor.managedIds)
    ensures forall l :: l in old(cursor.pending) ==>
              l.target == Some(Instr(old(cursor.context.nextUid), Op(Ldc_I4, IntOperand(id))))
    ensures cursor.context.labels == old(cursor.context.labels)
    ensures delStore.Valid() && methodStore.Valid()
    ensures id == old(delStore.count) && delStore.count == id + 1 && id < delStore.arr.Length
    ensures delStore.arr[..delStore.count] == old(delStore.arr[..delStore.count]) + [Some(cb)]
    ensures castsToAction <==> stub.None?
    ensures castsToAction ==>
              && methodStore.count == old(methodStore.count)
              && methodStore.arr == old(methodStore.arr) && methodStore.arr[..] == old(methodStore.arr[..])
              && cursor.context.onDispose == old(cursor.context.onDispose) + [ClearStored(delStore, id)]
              && InsertedAt(old(cursor.context.instrs), cursor.context.instrs, old(cursor.Index()),
                   StoreLoad(id, delType) + [Op(Callvirt, MethodOperand(InvokeMethod(delType)))])
    ensures !castsToAction ==>
              && stub.value.sig == Stubs.Signature(params + [delType], ret)
              && stub.value.body == Stubs.StubBody(|params|, delType)
              && methodStore.count == old(methodStore.count) + 1
              && methodStore.arr[..methodStore.count] == old(methodStore.arr[..methodStore.count]) + [Some(stubHandle)]
              && methodStore.Get(old(methodStore.count)) == Some(stubHandle)
              && cursor.context.onDispose
                 == old(cursor.context.onDispose) + [ClearStored(delStore, id), ClearStored(methodStore, old(methodStore.count))]
              && InsertedAt(old(cursor.context.instrs), cursor.context.instrs, old(cursor.Index()),
                   StoreLoad(id, delType) + [Op(Call, MethodOperand(GeneratedMethod(stubHandle)))])
    ensures cursor.Index() == old(cursor.Index()) + 3
  {
    ghost var s0 := cursor.context.instrs;
    ghost var i0 := cursor.Index();
    id := EmitReference(cursor, delStore, delType, Some(cb));
    if castsToAction {
      cursor.EmitNext(Op(Callvirt, MethodOperand(InvokeMethod(delType))), s0, i0, StoreLoad(id, delType));
      return id, None;
    }
    var built := Stubs.BuildStub(params, ret, delType);
    assert delStore.arr != methodStore.arr;
    var pin := AddReference(cursor.context, methodStore, Some(stubHandle));
    cursor.EmitNext(Op(Call, MethodOperand(GeneratedMethod(stubHandle))), s0, i0, StoreLoad(id, delType));
    stub := Some(built);
  }
}
