/** `CecILCursor`: a position in a method body's instruction list, with
    search, label bookkeeping and emission.

    The position is "just before `next`"; `next == None` is the end of the
    stream. The numeric `Index()` is recomputed from `next` on demand, so
    edits elsewhere in the stream do not invalidate the position. Labels
    marked at the position are pending until the next insertion, which
    retargets them to the inserted instruction. */
module CecIL {
  import opened Instructions
  import opened Search
  import Stubs
  import ReferenceStores

  /** A jump target whose instruction can be changed. */
  class Label {
    var target: Option<Instr>

    constructor (t: Option<Instr>)
      ensures target == t
    {
      target := t;
    }
  }

  type TypedStore = ReferenceStores.ReferenceStore<Option<HostObject>>

  /** One pending dispose action of a context: free every id a cursor bound
      into the static reference list, or clear one id of a typed store. */
  datatype DisposeAction =
    | FreeManaged(owner: Cursor)
    | ClearStored(store: TypedStore, id: nat)

  /** Some `FreeManaged` action among `acts` frees slot `j` of the reference
      list. */
  ghost predicate FreedBy(acts: seq<DisposeAction>, j: nat)
    reads set k | 0 <= k < |acts| && acts[k].FreeManaged? :: acts[k].owner
  {
    exists k :: 0 <= k < |acts| && acts[k].FreeManaged? && j in acts[k].owner.managedIds
  }

  /** The reference list `items`/`invokers` is `items0`/`invokers0` with the
      slots in `freed` nulled and their invokers dropped, and nothing else
      changed. */
  ghost predicate FreedFrom(items0: seq<Option<HostObject>>, invokers0: map<nat, HostObject>,
                            items: seq<Option<HostObject>>, invokers: map<nat, HostObject>, freed: set<nat>)
  {
    |items| == |items0|
    && (forall j :: j in freed ==> j < |items| && items[j] == None)
    && (forall j :: 0 <= j < |items| && j !in freed ==> items[j] == items0[j])
    && (forall id :: id in invokers <==> id in invokers0 && id !in freed)
    && (forall id :: id in invokers ==> invokers[id] == invokers0[id])
  }

  /** Freeing `freed` and then `more` frees their union. */
  lemma FreedFromCompose(items0: seq<Option<HostObject>>, invokers0: map<nat, HostObject>,
                         items1: seq<Option<HostObject>>, invokers1: map<nat, HostObject>, freed: set<nat>,
                         items2: seq<Option<HostObject>>, invokers2: map<nat, HostObject>, more: set<nat>)
    requires FreedFrom(items0, invokers0, items1, invokers1, freed)
    requires FreedFrom(items1, invokers1, items2, invokers2, more)
    ensures FreedFrom(items0, invokers0, items2, invokers2, freed + more)
  {
  }

  /** The editing context the cursor works in: the method body's instruction
      list, its labels and its dispose actions. `nextUid` is the identity the
      next created instruction gets. */
  class Context {
    var instrs: seq<Instr>
    var labels: seq<Label>
    var nextUid: nat
    var onDispose: seq<DisposeAction>

    ghost predicate Valid()
      reads this
    {
      Distinct(instrs) && forall x :: x in instrs ==> x.uid < nextUid
    }

    constructor (body: seq<Instr>, ls: seq<Label>, uidBound: nat)
      requires Distinct(body) && forall x :: x in body ==> x.uid < uidBound
      ensures Valid()
      ensures instrs == body && labels == ls && nextUid == uidBound && onDispose == []
    {
      instrs := body;
      labels := ls;
      nextUid := uidBound;
      onDispose := [];
    }

    /** `IL.Create(...)`: a new instruction object, not yet in the stream. */
    method Create(op: Op) returns (x: Instr)
      requires Valid()
      modifies this
      ensures Valid()
      ensures x == Instr(old(nextUid), op) && nextUid == old(nextUid) + 1
      ensures instrs == old(instrs) && labels == old(labels) && onDispose == old(onDispose)
      ensures forall y :: y in instrs ==> y.uid != x.uid
    {
      x := Instr(nextUid, op);
      nextUid := nextUid + 1;
    }

    /** Disposing the context runs its dispose actions in registration
        order. Afterwards every id a cursor bound into `refs` reads `null`,
        and every id bound into a typed store reads that store's default
        value; every other slot of the shared list and of the stores keeps
        its value, so the ids other contexts bound stay readable. Distinct
        stores (one per element type) have distinct arrays. */
    method Dispose(refs: ReferenceList)
      requires forall k :: 0 <= k < |onDispose| && onDispose[k].FreeManaged? ==>
                 onDispose[k].owner.refs == refs && onDispose[k].owner.IdsIssued()
      requires forall k :: 0 <= k < |onDispose| && onDispose[k].ClearStored? ==>
                 onDispose[k].store.Valid() && onDispose[k].id < onDispose[k].store.count
      requires forall j, k ::
                 (0 <= j < |onDispose| && 0 <= k < |onDispose| && onDispose[j].ClearStored? && onDispose[k].ClearStored?
                  && onDispose[j].store != onDispose[k].store) ==> onDispose[j].store.arr != onDispose[k].store.arr
      modifies refs, set k | 0 <= k < |onDispose| && onDispose[k].ClearStored? :: onDispose[k].store.arr
      ensures |refs.items| == old(|refs.items|)
      ensures forall k :: 0 <= k < |onDispose| && onDispose[k].FreeManaged? ==>
                forall m :: 0 <= m < |onDispose[k].owner.managedIds| ==>
                  onDispose[k].owner.managedIds[m] < |refs.items| && refs.items[onDispose[k].owner.managedIds[m]] == None
      ensures forall k :: 0 <= k < |onDispose| && onDispose[k].ClearStored? ==>
                onDispose[k].id < onDispose[k].store.arr.Length && onDispose[k].store.arr[onDispose[k].id] == onDispose[k].store.Default
      ensures forall j :: 0 <= j < |refs.items| && refs.items[j] != old(refs.items[j]) ==> FreedBy(onDispose, j)
      ensures forall id :: id in refs.invokers <==> id in old(refs.invokers) && !FreedBy(onDispose, id)
      ensures forall id :: id in refs.invokers ==> refs.invokers[id] == old(refs.invokers)[id]
      ensures forall k :: 0 <= k < |onDispose| && onDispose[k].ClearStored? ==>
                forall m :: 0 <= m < onDispose[k].store.arr.Length && onDispose[k].store.arr[m] != old(onDispose[k].store.arr[m]) ==>
                  ClearStored(onDispose[k].store, m) in onDispose
    {
      var acts := onDispose;
      ghost var arrs0 := seq(|acts|, k requires 0 <= k < |acts|
                                        reads if 0 <= k < |acts| && acts[k].ClearStored? then {acts[k].store, acts[k].store.arr} else {} =>
                               if acts[k].ClearStored? then acts[k].store.arr[..] else []);
      ghost var freed := RunAll(acts, refs, arrs0);
      forall j | FreedBy(acts, j) ensures j in freed {
        var k :| 0 <= k < |acts| && acts[k].FreeManaged? && j in acts[k].owner.managedIds;
        var m :| 0 <= m < |acts[k].owner.managedIds| && acts[k].owner.managedIds[m] == j;
      }
    }

    /** The dispose loop: runs `acts` in order, on stores whose contents were
        `arrs0` at the start, and returns the set of reference ids the
        cursors among them freed. */
    method RunAll(acts: seq<DisposeAction>, refs: ReferenceList, ghost arrs0: seq<seq<Option<HostObject>>>)
      returns (ghost freed: set<nat>)
      requires forall k :: 0 <= k < |acts| && acts[k].FreeManaged? ==>
                 acts[k].owner.refs == refs && acts[k].owner.IdsIssued()
      requires forall k :: 0 <= k < |acts| && acts[k].ClearStored? ==>
                 acts[k].store.Valid() && acts[k].id < acts[k].store.count
      requires forall j, k ::
                 (0 <= j < |acts| && 0 <= k < |acts| && acts[j].ClearStored? && acts[k].ClearStored?
                  && acts[j].store != acts[k].store) ==> acts[j].store.arr != acts[k].store.arr
      requires |arrs0| == |acts|
      requires forall k :: 0 <= k < |acts| && acts[k].ClearStored? ==> arrs0[k] == acts[k].store.arr[..]
      modifies refs, set k | 0 <= k < |acts| && acts[k].ClearStored? :: acts[k].store.arr
      ensures forall k :: 0 <= k < |acts| && acts[k].FreeManaged? ==>
                forall m :: 0 <= m < |acts[k].owner.managedIds| ==> acts[k].owner.managedIds[m] in freed
      ensures forall j :: j in freed ==> FreedBy(acts, j)
      ensures FreedFrom(old(refs.items), old(refs.invokers), refs.items, refs.invokers, freed)
      ensures forall k :: 0 <= k < |acts| && acts[k].ClearStored? ==>
                acts[k].id < acts[k].store.arr.Length && acts[k].store.arr[acts[k].id] == acts[k].store.Default
      ensures forall k :: 0 <= k < |acts| && acts[k].ClearStored? ==>
                forall m :: 0 <= m < acts[k].store.arr.Length && acts[k].store.arr[m] != arrs0[k][m] ==>
                  ClearStored(acts[k].store, m) in acts
    {
      ghost var items0, invokers0 := refs.items, refs.invokers;
      freed := {};
      var i := 0;
      while i < |acts|
        invariant 0 <= i <= |acts|
        invariant forall k :: 0 <= k < i && acts[k].FreeManaged? ==>
                    forall m :: 0 <= m < |acts[k].owner.managedIds| ==> acts[k].owner.managedIds[m] in freed
        invariant forall j :: j in freed ==> FreedBy(acts, j)
        invariant FreedFrom(items0, invokers0, refs.items, refs.invokers, freed)
        invariant forall k :: 0 <= k < i && acts[k].ClearStored? ==>
                    acts[k].id < acts[k].store.arr.Length && acts[k].store.arr[acts[k].id] == acts[k].store.Default
        invariant forall k :: 0 <= k < |acts| && acts[k].ClearStored? ==>
                    |arrs0[k]| == acts[k].store.arr.Length
                    && forall m :: 0 <= m < acts[k].store.arr.Length && acts[k].store.arr[m] != arrs0[k][m] ==>
                         ClearStored(acts[k].store, m) in acts
      {
        freed := DisposeStep(acts, i, refs, items0, invokers0, arrs0, freed);
        i := i + 1;
      }
    }

    /** Runs `acts[i]` of a dispose that started from the reference list
        `items0`/`invokers0` and the store contents `arrs0`, keeping the
        dispose loop's bookkeeping. */
    method DisposeStep(acts: seq<DisposeAction>, i: nat, refs: ReferenceList,
                       ghost items0: seq<Option<HostObject>>, ghost invokers0: map<nat, HostObject>,
                       ghost arrs0: seq<seq<Option<HostObject>>>, ghost freed: set<nat>)
      returns (ghost freed': set<nat>)
      requires i < |acts| == |arrs0|
      requires forall k :: 0 <= k < |acts| && acts[k].FreeManaged? ==>
                 acts[k].owner.refs == refs && acts[k].owner.IdsIssued()
      requires forall k :: 0 <= k < |acts| && acts[k].ClearStored? ==>
                 acts[k].store.Valid() && acts[k].id < acts[k].store.count
      requires forall j, k ::
                 (0 <= j < |acts| && 0 <= k < |acts| && acts[j].ClearStored? && acts[k].ClearStored?
                  && acts[j].store != acts[k].store) ==> acts[j].store.arr != acts[k].store.arr
      requires forall k :: 0 <= k < i && acts[k].FreeManaged? ==>
                 forall m :: 0 <= m < |acts[k].owner.managedIds| ==> acts[k].owner.managedIds[m] in freed
      requires forall j :: j in freed ==> FreedBy(acts, j)
      requires FreedFrom(items0, invokers0, refs.items, refs.invokers, freed)
      requires forall k :: 0 <= k < i && acts[k].ClearStored? ==>
                 acts[k].id < acts[k].store.arr.Length && acts[k].store.arr[acts[k].id] == acts[k].store.Default
      requires forall k :: 0 <= k < |acts| && acts[k].ClearStored? ==>
                 |arrs0[k]| == acts[k].store.arr.Length
                 && forall m :: 0 <= m < acts[k].store.arr.Length && acts[k].store.arr[m] != arrs0[k][m] ==>
                      ClearStored(acts[k].store, m) in acts
      modifies refs, if acts[i].ClearStored? then {acts[i].store.arr} else {}
      ensures forall k :: 0 <= k < i + 1 && acts[k].FreeManaged? ==>
                forall m :: 0 <= m < |acts[k].owner.managedIds| ==> acts[k].owner.managedIds[m] in freed'
      ensures forall j :: j in freed' ==> FreedBy(acts, j)
      ensures FreedFrom(items0, invokers0, refs.items, refs.invokers, freed')
      ensures forall k :: 0 <= k < i + 1 && acts[k].ClearStored? ==>
                acts[k].id < acts[k].store.arr.Length && acts[k].store.arr[acts[k].id] == acts[k].store.Default
      ensures forall k :: 0 <= k < |acts| && acts[k].ClearStored? ==>
                |arrs0[k]| == acts[k].store.arr.Length
                && forall m :: 0 <= m < acts[k].store.arr.Length && acts[k].store.arr[m] != arrs0[k][m] ==>
                     ClearStored(acts[k].store, m) in acts
    {
      match acts[i] {
      case FreeManaged(owner) =>
        ghost var items1, invokers1 := refs.items, refs.invokers;
        Run(acts[i], refs);
        ghost var ids := set m | m in owner.managedIds;
        assert FreedFrom(items1, invokers1, refs.items, refs.invokers, ids);
        FreedFromCompose(items0, invokers0, items1, invokers1, freed, refs.items, refs.invokers, ids);
        forall j | j in owner.managedIds ensures FreedBy(acts, j) {
          assert acts[i].FreeManaged? && j in acts[i].owner.managedIds;
        }
        freed' := freed + ids;
      case ClearStored(store, id) =>
        Run(acts[i], refs);
        freed' := freed;
      }
    }

    /** One dispose action: a cursor's `FreeReference` loop, or one
        `ReferenceStore<T>.Clear`. Slots already `null` stay `null`; a clear
        changes one slot of one store. */
    method Run(a: DisposeAction, refs: ReferenceList)
      requires a.FreeManaged? ==> a.owner.refs == refs && a.owner.IdsIssued()
      requires a.ClearStored? ==> a.store.Valid() && a.id < a.store.count
      modifies refs, if a.ClearStored? then {a.store.arr} else {}
      ensures |refs.items| == old(|refs.items|)
      ensures forall k :: 0 <= k < |refs.items| && old(refs.items[k]) == None ==> refs.items[k] == None
      ensures a.FreeManaged? ==> forall m :: 0 <= m < |a.owner.managedIds| ==> refs.items[a.owner.managedIds[m]] == None
      ensures a.ClearStored? ==> refs.items == old(refs.items) && a.store.arr[a.id] == a.store.Default
      ensures a.ClearStored? ==>
                forall k :: 0 <= k < a.store.arr.Length && k != a.id ==> a.store.arr[k] == old(a.store.arr[k])
      ensures a.ClearStored? ==> refs.invokers == old(refs.invokers)
      ensures a.FreeManaged? ==>
                forall j :: 0 <= j < |refs.items| && j !in a.owner.managedIds ==> refs.items[j] == old(refs.items[j])
      ensures a.FreeManaged? ==>
                forall id :: id in refs.invokers <==> id in old(refs.invokers) && id !in a.owner.managedIds
      ensures forall id :: id in refs.invokers ==> refs.invokers[id] == old(refs.invokers)[id]
    {
      match a
      case FreeManaged(owner) =>
        owner.FreeManagedIds();
      case ClearStored(store, id) =>
        store.Clear(id);
    }
  }

  /** The static `References` list shared by all cursors; a freed slot holds
      `null` and is never reused. */
  class ReferenceList {
    var items: seq<Option<HostObject>>
    /** The static `DelegateInvokers`: the adapter stub generated for the
        delegate bound at an id, kept so that it lives as long as the id. */
    var invokers: map<nat, HostObject>

    constructor ()
      ensures items == [] && invokers == map[]
    {
      items := [];
      invokers := map[];
    }

    /** `GetReference(id)`: the object bound at `id`, `null` once freed. An id
        that was never issued is outside the list, and the list's indexer
        throws on it. */
    function Get(id: nat): (r: Option<HostObject>)
      reads this
      requires id < |items|
      ensures r == items[id]
    {
      items[id]
    }

    /** The locked append of `AddReference`: the new object's id is the
        list's length before the append. */
    method Add(obj: Option<HostObject>) returns (id: nat)
      modifies this
      ensures id == old(|items|) && items == old(items) + [obj]
      ensures invokers == old(invokers) && Get(id) == obj
    {
      items := items + [obj];
      id := |items| - 1;
    }

    /** Records the stub generated for the delegate bound at `id`. */
    method SetInvoker(id: nat, stub: HostObject)
      modifies this
      ensures items == old(items) && invokers == old(invokers)[id := stub]
    {
      invokers := invokers[id := stub];
    }

    /** `SetReference(id, obj)`. */
    method Set(id: nat, obj: Option<HostObject>)
      requires id < |items|
      modifies this
      ensures items == old(items)[id := obj] && invokers == old(invokers)
    {
      items := items[id := obj];
    }

    /** `FreeReference(id)`: nulls that slot only, so the list never shrinks
        and no id is handed out again; the stub kept for the id, if any, is
        dropped. */
    method Free(id: nat)
      requires id < |items|
      modifies this
      ensures |items| == old(|items|) && Get(id) == None
      ensures forall k :: 0 <= k < |items| && k != id ==> items[k] == old(items[k])
      ensures invokers == old(invokers) - {id}
    {
      items := items[id := None];
      if id in invokers {
        invokers := invokers - {id};
      }
    }
  }

  /** The labels of `ls` whose target is `x`, in order. */
  function LabelsAt(ls: seq<Label>, x: Option<Instr>): (r: seq<Label>)
    reads set l | l in ls
    ensures forall k :: 0 <= k < |r| ==> r[k] in ls && r[k].target == x
    ensures forall k :: 0 <= k < |ls| && ls[k].target == x ==> ls[k] in r
    ensures |r| <= |ls|
  {
    if ls == [] then []
    else (if ls[0].target == x then [ls[0]] else []) + LabelsAt(ls[1..], x)
  }

  /** `after` is `before` with instructions doing `ops` inserted at `i`. */
  ghost predicate InsertedAt(before: seq<Instr>, after: seq<Instr>, i: nat, ops: seq<Op>)
  {
    && i <= |before|
    && |after| == |before| + |ops|
    && after[..i] == before[..i]
    && after[i + |ops|..] == before[i..]
    && forall k :: 0 <= k < |ops| ==> after[i + k].op == ops[k]
  }

  lemma InsertedAtNone(s: seq<Instr>, i: nat)
    requires i <= |s|
    ensures InsertedAt(s, s, i, [])
  {
  }

  /** A non-empty list of positions is its first element followed by the
      rest, and everything but its last element followed by the last. */
  lemma SplitEnds(p: seq<nat>)
    requires |p| >= 1
    ensures [p[0]] + p[1..] == p && p[..|p| - 1] + [p[|p| - 1]] == p
  {
  }

  /** One more instruction inserted right after the ones already inserted. */
  lemma InsertedAtStep(before: seq<Instr>, mid: seq<Instr>, i: nat, ops: seq<Op>, x: Instr)
    requires InsertedAt(before, mid, i, ops)
    ensures InsertedAt(before, mid[..i + |ops|] + [x] + mid[i + |ops|..], i, ops + [x.op])
  {
    var after := mid[..i + |ops|] + [x] + mid[i + |ops|..];
    assert after[..i] == mid[..i];
    assert after[i + |ops| + 1..] == mid[i + |ops|..];
    forall k | 0 <= k < |ops| + 1 ensures after[i + k].op == (ops + [x.op])[k] {
      if k < |ops| {
        assert after[i + k] == mid[i + k];
      }
    }
  }

  /** The instructions `EmitReference`/`EmitGetReference` emit for id `id`:
      push the id, call `GetReference`, and unbox when `T` is a value type. */
  function ReferenceLoad(id: nat, t: TypeRef, isValueType: bool): (r: seq<Op>)
    ensures |r| >= 2 && r[0] == Op(Ldc_I4, IntOperand(id)) && r[1] == Op(Call, MethodOperand(GetReferenceMethod))
    ensures (exists k :: 0 <= k < |r| && r[k].opcode == Unbox_Any) <==> isValueType
  {
    var r := [Op(Ldc_I4, IntOperand(id)), Op(Call, MethodOperand(GetReferenceMethod))]
      + (if isValueType then [Op(Unbox_Any, TypeOperand(t))] else []);
    assert isValueType ==> r[2].opcode == Unbox_Any;
    r
  }

  /** The inner loop of both single searches: every predicate holds on its
      instruction of the window starting at `i`; the first failing predicate
      ends the check. */
  method MatchesAt(s: seq<Instr>, preds: seq<Pred>, i: nat) returns (ok: bool)
    requires i + |preds| <= |s|
    ensures ok <==> RunAt(s, preds, i)
  {
    var j := 0;
    while j < |preds|
      invariant 0 <= j <= |preds|
      invariant forall m :: 0 <= m < j ==> HoldsAt(s, preds, i, m)
    {
      if !Holds(preds[j], s[i + j]) {
        assert !HoldsAt(s, preds, i, j);
        return false;
      }
      j := j + 1;
    }
    return true;
  }

  /** `MarkLabel` followed by two emits: the label ends on the FIRST emitted
      instruction, which sits where the cursor was, and the cursor ends after
      both. */
  method MarkThenEmitTwice(c: Cursor, lbl: Label, a: Op, b: Op)
    requires c.Valid()
    modifies c, c.context, lbl
    ensures c.Valid() && c.next == old(c.next) && c.pending == []
    ensures lbl.target == Some(Instr(old(c.context.nextUid), a))
    ensures InsertedAt(old(c.context.instrs), c.context.instrs, old(c.Index()), [a, b])
    ensures c.context.instrs[old(c.Index())] == lbl.target.value
    ensures c.Index() == old(c.Index()) + 2
  {
    ghost var s0 := c.context.instrs;
    ghost var i0 := c.Index();
    c.MarkLabel(lbl);
    InsertedAtNone(s0, i0);
    c.EmitNext(a, s0, i0, []);
    assert [] + [a] == [a];
    ghost var mid := c.context.instrs;
    c.EmitNext(b, s0, i0, [a]);
    assert c.context.instrs[i0] == c.context.instrs[..i0 + 1][i0] == mid[..i0 + 1][i0];
  }

  class Cursor {
    const context: Context
    /** The process-wide `References` list. */
    const refs: ReferenceList
    /** `_Next`: the instruction the cursor sits before; `None` at the end. */
    var next: Option<Instr>
    /** `_insertAfterLabels`: labels the next insertion retargets (`null` is
        the empty list). */
    var pending: seq<Label>
    /** `ManagedReferenceIDs`. */
    var managedIds: seq<nat>

    ghost predicate Valid()
      reads this, context
    {
      context.Valid() && (next.Some? ==> next.value.uid < context.nextUid)
    }

    /** `c` is a cursor on the same context and reference list, sitting
        before `x`. */
    ghost predicate PlacedAt(c: Cursor?, x: Instr)
      reads c
    {
      c != null && c.context == context && c.refs == refs && c.next == Some(x)
    }

    constructor (ctx: Context, rs: ReferenceList, instr: Option<Instr>)
      requires ctx.Valid() && (instr.Some? ==> instr.value.uid < ctx.nextUid)
      ensures Valid()
      ensures context == ctx && refs == rs && next == instr
      ensures pending == [] && managedIds == []
    {
      context := ctx;
      refs := rs;
      next := instr;
      pending := [];
      managedIds := [];
    }

    /** `Clone()`: same context and position, no pending labels. */
    method Clone() returns (c: Cursor)
      requires Valid()
      ensures fresh(c) && c.Valid() && c.context == context && c.refs == refs && c.next == next
      ensures c.pending == [] && c.managedIds == []
    {
      c := new Cursor(context, refs, next);
    }

    /** `Index`: the position of `next`; the end, and an instruction no longer
        in the stream, read as `Count`. */
    function Index(): (r: nat)
      reads this, context
      ensures r <= |context.instrs|
      ensures r < |context.instrs| <==> next.Some? && next.value in context.instrs
      ensures r < |context.instrs| ==> context.instrs[r] == next.value
    {
      IndexOrCount(context.instrs, next)
    }

    /** The `Next` setter: moving to a different instruction drops the
        pending labels; assigning the same one keeps them. */
    method SetNext(v: Option<Instr>)
      requires Valid() && (v.Some? ==> v.value.uid < context.nextUid)
      modifies this
      ensures Valid() && next == v && managedIds == old(managedIds)
      ensures pending == if v == old(next) then old(pending) else []
    {
      if v != next {
        pending := [];
        next := v;
      }
    }

    /** The `Index` setter: `k == Count` is the end of the stream; reading
        `Index()` back yields `k`. */
    method SetIndex(k: nat)
      requires Valid() && k <= |context.instrs|
      modifies this
      ensures Valid() && Index() == k && managedIds == old(managedIds)
      ensures next.None? <==> k == |context.instrs|
      ensures pending == if next == old(next) then old(pending) else []
    {
      if k == |context.instrs| {
        SetNext(None);
      } else {
        SetNext(Some(context.instrs[k]));
        IndexOfAt(context.instrs, k);
      }
    }

    /** The `Prev` getter: the instruction before the position. It wraps
        around: at the first instruction, and at the end, it is the last
        instruction of the stream. */
    function Prev(): (p: Instr)
      reads this, context
      requires |context.instrs| > 0
      requires next.None? || next.value in context.instrs
      ensures p in context.instrs
      ensures 0 < Index() < |context.instrs| ==> p == context.instrs[Index() - 1]
      ensures Index() == 0 || next.None? ==> p == context.instrs[|context.instrs| - 1]
    {
      var i := Index();
      if next.Some? && i > 0 then context.instrs[i - 1] else context.instrs[|context.instrs| - 1]
    }

    /** The `Prev` setter: the position after `v`. It wraps around too: given
        the last instruction (or `null`) it moves to the first instruction,
        not to the end. */
    method SetPrev(v: Option<Instr>)
      requires Valid() && |context.instrs| > 0
      requires v.None? || v.value in context.instrs
      modifies this
      ensures Valid() && managedIds == old(managedIds)
      ensures v.Some? && IndexOrCount(context.instrs, v) < |context.instrs| - 1 ==>
                Index() == IndexOrCount(context.instrs, v) + 1
      ensures v.None? || IndexOrCount(context.instrs, v) == |context.instrs| - 1 ==>
                Index() == 0
      ensures next.Some?
      ensures pending == if next == old(next) then old(pending) else []
    {
      var s := context.instrs;
      if v.Some? && IndexOrCount(s, v) + 1 < |s| {
        var k := IndexOrCount(s, v) + 1;
        SetNext(Some(s[k]));
        IndexOfAt(s, k);
      } else {
        SetNext(Some(s[0]));
        IndexOfAt(s, 0);
      }
    }

    /** Reading `Prev` and assigning it back returns to the same instruction,
        the wrap-around included, unless the cursor was at the end, where it
        lands on the first instruction. */
    method PrevRoundTrip()
      requires Valid() && |context.instrs| > 0
      requires next.None? || next.value in context.instrs
      modifies this
      ensures Valid()
      ensures old(next).Some? ==> next == old(next)
      ensures old(next).None? ==> Index() == 0
    {
      var p := Prev();
      IndexOfAt(context.instrs, if Index() > 0 && next.Some? then Index() - 1 else |context.instrs| - 1);
      SetPrev(Some(p));
      if old(next).Some? {
        IndexOfAt(context.instrs, old(Index()));
      }
    }

    /** `IsBefore(x)`: the cursor is at or before `x`; an instruction not in
        the stream compares as the end, after every position. */
    function IsBefore(x: Instr): (r: bool)
      reads this, context
      ensures x !in context.instrs ==> r
      ensures next == Some(x) ==> r
      ensures x in context.instrs ==> (r <==> Index() <= IndexOrCount(context.instrs, Some(x)))
    {
      Index() <= IndexOrCount(context.instrs, Some(x))
    }

    /** `IsAfter(x)`: exactly the complement of `IsBefore(x)`. */
    function IsAfter(x: Instr): (r: bool)
      reads this, context
      ensures r == !IsBefore(x)
      ensures r ==> x in context.instrs
    {
      IndexOrCount(context.instrs, Some(x)) < Index()
    }

    /** `Remove()`: deletes `next` from the stream; the cursor keeps its
        numeric index, so it now sits before the following instruction. */
    method Remove()
      requires Valid() && next.Some? && next.value in context.instrs
      modifies this, context
      ensures Valid() && managedIds == old(managedIds)
      ensures var i := old(Index());
        context.instrs == old(context.instrs)[..i] + old(context.instrs)[i + 1..]
      ensures Index() == old(Index())
      ensures next != old(next) && pending == []
      ensures context.nextUid == old(context.nextUid)
      ensures context.labels == old(context.labels) && context.onDispose == old(context.onDispose)
    {
      var index := Index();
      var s := context.instrs;
      DistinctRemove(s, index);
      context.instrs := s[..index] + s[index + 1..];
      SetIndex(index);
    }

    /** `GotoLabel(label)`: moves to the label's target. */
    method GotoLabel(lbl: Label)
      requires Valid() && (lbl.target.Some? ==> lbl.target.value.uid < context.nextUid)
      modifies this
      ensures Valid() && next == lbl.target && managedIds == old(managedIds)
      ensures pending == if next == old(next) then old(pending) else []
    {
      SetNext(lbl.target);
    }

    /** `MarkLabel(label)`: the label now targets the position, and it is the
        only pending label. */
    method MarkLabel(lbl: Label)
      requires Valid()
      modifies this, lbl
      ensures Valid() && next == old(next) && managedIds == old(managedIds)
      ensures lbl.target == next && pending == [lbl]
    {
      lbl.target := next;
      pending := [lbl];
    }

    /** `MoveAfterLabel()`: every label of the context that targets the
        position becomes pending, so the next insertion lands after them. */
    method MoveAfterLabel()
      requires Valid()
      modifies this
      ensures Valid() && next == old(next) && managedIds == old(managedIds)
      ensures pending == LabelsAt(context.labels, next)
      ensures forall l :: l in pending <==> l in context.labels && l.target == next
    {
      pending := LabelsAt(context.labels, next);
    }

    /** `MoveBeforeLabel()`: no label is pending. */
    method MoveBeforeLabel()
      requires Valid()
      modifies this
      ensures Valid() && next == old(next) && managedIds == old(managedIds)
      ensures pending == []
    {
      pending := [];
    }

    /** `TryGotoNext(preds)`: moves to the first run of `preds` starting
        strictly after the position (a `null` predicate matches anything).
        On failure nothing changes. */
    method TryGotoNext(preds: seq<Pred>) returns (found: bool)
      requires Valid()
      modifies this
      ensures Valid() && managedIds == old(managedIds)
      ensures var r := FirstRun(context.instrs, preds, old(Index()) + 1);
        && (found <==> r.Some?)
        && (found ==> Index() == r.value && pending == [])
      ensures !found ==> next == old(next) && pending == old(pending)
    {
      var s := context.instrs;
      ghost var lo: nat := Index() + 1;
      var i: nat := Index() + 1;
      while i + |preds| <= |s|
        invariant Valid() && managedIds == old(managedIds)
        invariant next == old(next) && pending == old(pending)
        invariant lo <= i
        invariant forall k :: lo <= k < i ==> !RunAt(s, preds, k)
        decreases |s| - i
      {
        var ok := MatchesAt(s, preds, i);
        if ok {
          FirstRunIs(s, preds, lo, i);
          ghost var before := next;
          SetIndex(i);
          if before.Some? && before.value in s {
            IndexOfAt(s, lo - 1);
          }
          return true;
        }
        i := i + 1;
      }
      return false;
    }

    /** `TryGotoPrev(preds)`: moves to the last run of `preds` starting
        strictly before the position and lying wholly inside the stream. The
        start is clamped so that the run ends at the last instruction at the
        latest. On failure nothing changes. */
    method TryGotoPrev(preds: seq<Pred>) returns (found: bool)
      requires Valid()
      modifies this
      ensures Valid() && managedIds == old(managedIds)
      ensures var r := LastRun(context.instrs, preds, old(Index()) - 1);
        && (found <==> r.Some?)
        && (found ==> Index() == r.value && pending == [])
      ensures !found ==> next == old(next) && pending == old(pending)
    {
      var s := context.instrs;
      var i: int := Index() - 1;
      var overhang := i + |preds| - |s|;
      if overhang > 0 {
        i := i - overhang;
        LastRunSkip(s, preds, old(Index()) - 1, i);
      }
      while i > -1
        invariant Valid() && managedIds == old(managedIds)
        invariant i + |preds| <= |s| && i < Index() && next == old(next) && pending == old(pending)
        invariant LastRun(s, preds, old(Index()) - 1) == LastRun(s, preds, i)
        decreases i
      {
        var ok := MatchesAt(s, preds, i);
        if ok {
          ghost var before := next;
          SetIndex(i);
          if before.Some? && before.value in s {
            IndexOfAt(s, old(Index()));
          }
          return true;
        }
        i := i - 1;
      }
      return false;
    }

    /** `TryGotoNext(p)` with a single predicate, as the chained searches
        call it: moves to the next instruction after the position that `p`
        holds on. */
    method GotoNextMatch(p: Pred) returns (found: bool)
      requires Valid()
      modifies this
      ensures Valid() && managedIds == old(managedIds)
      ensures var m := NextMatch(context.instrs, p, old(Index()) + 1);
        && (found <==> m.Some?)
        && (found ==> Index() == m.value && m.value < |context.instrs| && pending == [])
      ensures !found ==> next == old(next) && pending == old(pending)
    {
      NextMatchIsRun(context.instrs, p, Index() + 1);
      found := TryGotoNext([p]);
    }

    /** `TryGotoPrev(p)` with a single predicate: moves to the last
        instruction before the position that `p` holds on. */
    method GotoPrevMatch(p: Pred) returns (found: bool)
      requires Valid()
      modifies this
      ensures Valid() && managedIds == old(managedIds)
      ensures var m := PrevMatch(context.instrs, p, old(Index()) - 1);
        && (found <==> m.Some?)
        && (found ==> Index() == m.value && m.value < |context.instrs| && pending == [])
      ensures !found ==> next == old(next) && pending == old(pending)
    {
      PrevMatchIsRun(context.instrs, p, Index() - 1);
      found := TryGotoPrev([p]);
    }

    /** `TryFindNext(preds)`: a chained forward search. It anchors on the next
        match of `preds[0]`, then finds each later predicate at its own next
        match after the previous one, cloning a cursor at every match. If a
        later predicate is missing it retries from the next anchor. On
        success the cursor ends on the anchor; on failure it returns to where
        it started. */
    method TryFindNext(preds: seq<Pred>) returns (found: bool, cursors: array<Cursor?>)
      requires Valid() && |preds| >= 1
      modifies this
      ensures Valid() && managedIds == old(managedIds)
      ensures fresh(cursors) && cursors.Length == |preds|
      ensures var r := FindNextFrom(context.instrs, preds, old(Index()) + 1);
        && (found <==> r.Some?)
        && (found ==> |r.value| == |preds| && Index() == r.value[0] && pending == [])
        && (found ==> forall k :: 0 <= k < |preds| ==>
              r.value[k] < |context.instrs| && PlacedAt(cursors[k], context.instrs[r.value[k]]))
      ensures !found ==> next == old(next)
      ensures !found ==>
                pending == if NextMatch(context.instrs, preds[0], old(Index()) + 1).None? then old(pending) else []
    {
      var s := context.instrs;
      ghost var lo0: nat := Index() + 1;
      cursors := new Cursor?[|preds|](_ => null);
      var instrOrig := next;
      ghost var first := true;
      while true
        invariant Valid() && managedIds == old(managedIds)
        invariant first ==> next == instrOrig && pending == old(pending) && Index() + 1 == lo0
        invariant !first ==> pending == [] && NextMatch(s, preds[0], lo0).Some?
        invariant lo0 <= Index() + 1
        invariant forall q :: lo0 <= q < Index() + 1 ==> !AnchorsNext(s, preds, q)
        decreases |s| - Index()
      {
        ghost var before := Index();
        var anchored, chained;
        ghost var pos;
        anchored, chained, pos := RoundNext(preds, cursors);
        if !anchored {
          FindNextMissed(s, preds, lo0, before + 1);
          break;
        }
        if chained {
          FindNextFound(s, preds, lo0, before + 1, Index());
          SplitEnds(pos);
          return true, cursors;
        }
        FindNextPassed(s, preds, lo0, before + 1, Index());
        first := false;
      }
      SetNext(instrOrig);
      return false, cursors;
    }

    /** One round of `TryFindNext`: anchor on the next match of `preds[0]`,
        clone a cursor there, chain the other predicates and come back to the
        anchor. */
    method RoundNext(preds: seq<Pred>, cursors: array<Cursor?>) returns (anchored: bool, chained: bool, ghost pos: seq<nat>)
      requires Valid() && |preds| == cursors.Length >= 1
      modifies this, cursors
      ensures Valid() && managedIds == old(managedIds)
      ensures var m := NextMatch(context.instrs, preds[0], old(Index()) + 1);
        && (anchored <==> m.Some?)
        && (!anchored ==> next == old(next) && pending == old(pending))
        && (anchored ==> Index() == m.value && pending == [] && (chained <==> AnchorsNext(context.instrs, preds, m.value)))
      ensures chained ==> anchored && pending == [] && |pos| == |preds| && pos[0] == Index()
      ensures chained ==> ChainNext(context.instrs, preds, 1, pos[0]) == Some(pos[1..])
      ensures chained ==> forall k :: 0 <= k < |preds| ==>
                pos[k] < |context.instrs| && PlacedAt(cursors[k], context.instrs[pos[k]])
    {
      chained := false;
      pos := [];
      anchored := GotoNextMatch(preds[0]);
      if !anchored {
        return;
      }
      ghost var a := Index();
      cursors[0] := Clone();
      var instrFirst := next;
      chained, pos := ChainForward(preds, cursors);
      SetNext(instrFirst);
      assert Index() == a;
    }

    /** The inner loop of `TryFindNext`: from the anchor at the position,
        finds `preds[1]`, `preds[2]`, ... each at its next match after the
        previous one, cloning a cursor into `cursors[k]` at the match
        `pos[k]` of `preds[k]`; stops at the first predicate that has no
        match. */
    method ChainForward(preds: seq<Pred>, cursors: array<Cursor?>) returns (chained: bool, ghost pos: seq<nat>)
      requires Valid() && |preds| == cursors.Length >= 1
      requires Index() < |context.instrs| && pending == []
      requires cursors[0] != this && PlacedAt(cursors[0], context.instrs[Index()])
      modifies this, cursors
      ensures Valid() && managedIds == old(managedIds) && pending == []
      ensures |pos| == |preds| && pos[0] == old(Index())
      ensures var r := ChainNext(context.instrs, preds, 1, old(Index()));
        && (chained <==> r.Some?)
        && (chained ==> r.value == pos[1..])
      ensures chained ==> forall k :: 0 <= k < |preds| ==>
                pos[k] < |context.instrs| && cursors[k] != this && PlacedAt(cursors[k], context.instrs[pos[k]])
    {
      var s := context.instrs;
      var n := |preds|;
      ghost var a := Index();
      var i := 1;
      pos := seq(n, _ => a);
      ChainStarts(ChainNext(s, preds, 1, a));
      assert pos[1..1] == [];
      while i < n
        invariant 1 <= i <= n && |pos| == n && pos[0] == a
        invariant Valid() && managedIds == old(managedIds) && pending == []
        invariant Index() < |s|
        invariant ChainNext(s, preds, 1, a) == Prepend(pos[1..i], ChainNext(s, preds, i, Index()))
        invariant forall k :: 0 <= k < i ==> pos[k] < |s| && cursors[k] != this && PlacedAt(cursors[k], s[pos[k]])
      {
        ghost var here := Index();
        var moved;
        ghost var pos';
        moved, pos' := StepForward(preds, cursors, i, pos);
        if !moved {
          ChainNextMiss(s, preds, i, here, pos[1..i]);
          return false, pos;
        }
        ChainNextStep(s, preds, i, here, pos[1..i], Index());
        RecordAtEnd(pos, 1, i, Index());
        pos := pos';
        i := i + 1;
      }
      ChainEnds(pos[1..]);
      assert pos[1..n] == pos[1..];
      return true, pos;
    }

    /** One step of `ChainForward`: moves to the next match of `preds[i]`
        and, if there is one, clones a cursor there into `cursors[i]` and
        records its index in `pos[i]`; the cursors placed before stay put. */
    method StepForward(preds: seq<Pred>, cursors: array<Cursor?>, i: nat, ghost pos: seq<nat>)
      returns (moved: bool, ghost pos': seq<nat>)
      requires Valid() && |preds| == cursors.Length == |pos| && i < |preds| && pending == []
      requires forall k :: 0 <= k < i ==>
                 pos[k] < |context.instrs| && cursors[k] != this && PlacedAt(cursors[k], context.instrs[pos[k]])
      modifies this, cursors
      ensures Valid() && managedIds == old(managedIds) && pending == []
      ensures var m := NextMatch(context.instrs, preds[i], old(Index()) + 1);
        && (moved <==> m.Some?)
        && (!moved ==> next == old(next))
        && (moved ==> Index() == m.value && m.value < |context.instrs| && pos' == pos[i := m.value])
      ensures moved ==> forall k :: 0 <= k <= i ==>
                pos'[k] < |context.instrs| && cursors[k] != this && PlacedAt(cursors[k], context.instrs[pos'[k]])
    {
      pos' := pos;
      moved := GotoNextMatch(preds[i]);
      if moved {
        cursors[i] := Clone();
        pos' := pos[i := Index()];
      }
    }

    /** One step of `ChainBackward`, the mirror of `StepForward`. */
    method StepBackward(preds: seq<Pred>, cursors: array<Cursor?>, i: nat, ghost pos: seq<nat>)
      returns (moved: bool, ghost pos': seq<nat>)
      requires Valid() && |preds| == cursors.Length == |pos| && i < |preds| && pending == []
      requires forall k :: i < k < |preds| ==>
                 pos[k] < |context.instrs| && cursors[k] != this && PlacedAt(cursors[k], context.instrs[pos[k]])
      modifies this, cursors
      ensures Valid() && managedIds == old(managedIds) && pending == []
      ensures var m := PrevMatch(context.instrs, preds[i], old(Index()) - 1);
        && (moved <==> m.Some?)
        && (!moved ==> next == old(next))
        && (moved ==> Index() == m.value && m.value < |context.instrs| && pos' == pos[i := m.value])
      ensures moved ==> forall k :: i <= k < |preds| ==>
                pos'[k] < |context.instrs| && cursors[k] != this && PlacedAt(cursors[k], context.instrs[pos'[k]])
    {
      pos' := pos;
      moved := GotoPrevMatch(preds[i]);
      if moved {
        cursors[i] := Clone();
        pos' := pos[i := Index()];
      }
    }

    /** `TryFindPrev(preds)`: the mirror image of `TryFindNext`. It anchors on
        the previous match of the last predicate, then finds each earlier
        predicate at its own previous match before the one after it. On
        success the cursor ends on the anchor (the last match); on failure it
        returns to where it started. */
    method TryFindPrev(preds: seq<Pred>) returns (found: bool, cursors: array<Cursor?>)
      requires Valid() && |preds| >= 1
      modifies this
      ensures Valid() && managedIds == old(managedIds)
      ensures fresh(cursors) && cursors.Length == |preds|
      ensures var r := FindPrevFrom(context.instrs, preds, old(Index()) - 1);
        && (found <==> r.Some?)
        && (found ==> |r.value| == |preds| && Index() == r.value[|preds| - 1] && pending == [])
        && (found ==> forall k :: 0 <= k < |preds| ==>
              r.value[k] < |context.instrs| && PlacedAt(cursors[k], context.instrs[r.value[k]]))
      ensures !found ==> next == old(next)
      ensures !found ==>
                pending == if PrevMatch(context.instrs, preds[|preds| - 1], old(Index()) - 1).None? then old(pending) else []
    {
      var s := context.instrs;
      var n := |preds|;
      ghost var hi0: int := Index() - 1;
      cursors := new Cursor?[n](_ => null);
      var instrOrig := next;
      ghost var first := true;
      while true
        invariant Valid() && managedIds == old(managedIds)
        invariant first ==> next == instrOrig && pending == old(pending) && Index() - 1 == hi0
        invariant !first ==> pending == [] && PrevMatch(s, preds[n - 1], hi0).Some?
        invariant Index() - 1 <= hi0
        invariant forall q: nat :: Index() - 1 < q <= hi0 ==> !AnchorsPrev(s, preds, q)
        decreases Index()
      {
        ghost var before: int := Index();
        var anchored, chained;
        ghost var pos;
        anchored, chained, pos := RoundPrev(preds, cursors);
        if !anchored {
          FindPrevMissed(s, preds, hi0, before - 1);
          break;
        }
        if chained {
          FindPrevFound(s, preds, hi0, before - 1, Index());
          SplitEnds(pos);
          return true, cursors;
        }
        FindPrevPassed(s, preds, hi0, before - 1, Index());
        first := false;
      }
      SetNext(instrOrig);
      return false, cursors;
    }

    /** One round of `TryFindPrev`: anchor on the previous match of the last
        predicate, clone a cursor there, chain the other predicates backwards
        and come back to the anchor. */
    method RoundPrev(preds: seq<Pred>, cursors: array<Cursor?>) returns (anchored: bool, chained: bool, ghost pos: seq<nat>)
      requires Valid() && |preds| == cursors.Length >= 1
      modifies this, cursors
      ensures Valid() && managedIds == old(managedIds)
      ensures var m := PrevMatch(context.instrs, preds[|preds| - 1], old(Index()) - 1);
        && (anchored <==> m.Some?)
        && (!anchored ==> next == old(next) && pending == old(pending))
        && (anchored ==> Index() == m.value && pending == [] && (chained <==> AnchorsPrev(context.instrs, preds, m.value)))
      ensures chained ==> anchored && pending == [] && |pos| == |preds| && pos[|preds| - 1] == Index()
      ensures chained ==> ChainPrev(context.instrs, preds, |preds| - 1, pos[|preds| - 1]) == Some(pos[..|preds| - 1])
      ensures chained ==> forall k :: 0 <= k < |preds| ==>
                pos[k] < |context.instrs| && PlacedAt(cursors[k], context.instrs[pos[k]])
    {
      var n := |preds|;
      chained := false;
      pos := [];
      anchored := GotoPrevMatch(preds[n - 1]);
      if !anchored {
        return;
      }
      ghost var b := Index();
      cursors[n - 1] := Clone();
      var instrLast := next;
      chained, pos := ChainBackward(preds, cursors);
      SetNext(instrLast);
      assert Index() == b;
    }

    /** The inner loop of `TryFindPrev`: from the anchor at the position,
        finds `preds[n-2]`, `preds[n-3]`, ... each at its previous match
        before the one after it, cloning a cursor into `cursors[k]` at the
        match `pos[k]` of `preds[k]`; stops at the first predicate that has
        no match. */
    method ChainBackward(preds: seq<Pred>, cursors: array<Cursor?>) returns (chained: bool, ghost pos: seq<nat>)
      requires Valid() && |preds| == cursors.Length >= 1
      requires Index() < |context.instrs| && pending == []
      requires cursors[|preds| - 1] != this && PlacedAt(cursors[|preds| - 1], context.instrs[Index()])
      modifies this, cursors
      ensures Valid() && managedIds == old(managedIds) && pending == []
      ensures |pos| == |preds| && pos[|preds| - 1] == old(Index())
      ensures var r := ChainPrev(context.instrs, preds, |preds| - 1, old(Index()));
        && (chained <==> r.Some?)
        && (chained ==> r.value == pos[..|preds| - 1])
      ensures chained ==> forall k :: 0 <= k < |preds| ==>
                pos[k] < |context.instrs| && cursors[k] != this && PlacedAt(cursors[k], context.instrs[pos[k]])
    {
      var s := context.instrs;
      var n := |preds|;
      ghost var b := Index();
      var i := n - 2;
      pos := seq(n, _ => b);
      ChainStarts(ChainPrev(s, preds, n - 1, b));
      assert pos[n - 1..n - 1] == [];
      while i > -1
        invariant -1 <= i <= n - 2 && |pos| == n && pos[n - 1] == b
        invariant Valid() && managedIds == old(managedIds) && pending == []
        invariant Index() < |s|
        invariant ChainPrev(s, preds, n - 1, b) == Append(ChainPrev(s, preds, i + 1, Index()), pos[i + 1..n - 1])
        invariant forall k :: i < k < n ==> pos[k] < |s| && cursors[k] != this && PlacedAt(cursors[k], s[pos[k]])
      {
        ghost var here := Index();
        var moved;
        ghost var pos';
        moved, pos' := StepBackward(preds, cursors, i, pos);
        if !moved {
          ChainPrevMiss(s, preds, i + 1, here, pos[i + 1..n - 1]);
          return false, pos;
        }
        ChainPrevStep(s, preds, i + 1, here, pos[i + 1..n - 1], Index());
        RecordAtFront(pos, i, n - 1, Index());
        pos := pos';
        i := i - 1;
      }
      ChainEnds(pos[..n - 1]);
      assert pos[0..n - 1] == pos[..n - 1];
      return true, pos;
    }

    /** `_Insert(x)`: puts `x` at the position, before `next`; the cursor stays
        before `next`, so its index grows by one. Every pending label now
        targets `x`, and none is pending any more. Returns a new cursor before
        `x`. */
    method Insert(x: Instr) returns (c: Cursor)
      requires Valid() && x.uid < context.nextUid
      requires forall y :: y in context.instrs ==> y.uid != x.uid
      requires next.Some? ==> next.value.uid != x.uid
      modifies this, context, set l | l in pending
      ensures Valid() && next == old(next) && managedIds == old(managedIds)
      ensures var i := old(Index());
        context.instrs == old(context.instrs)[..i] + [x] + old(context.instrs)[i..]
      ensures Index() == old(Index()) + 1
      ensures forall l :: l in old(pending) ==> l.target == Some(x)
      ensures pending == []
      ensures context.nextUid == old(context.nextUid)
      ensures context.labels == old(context.labels) && context.onDispose == old(context.onDispose)
      ensures fresh(c) && c.context == context && c.refs == refs && c.next == Some(x)
    {
      var s := context.instrs;
      var i := Index();
      DistinctInsert(s, i, x);
      context.instrs := s[..i] + [x] + s[i..];
      var ls := pending;
      var j := 0;
      while j < |ls|
        invariant 0 <= j <= |ls|
        invariant forall k :: 0 <= k < j ==> ls[k].target == Some(x)
        modifies set l | l in ls
      {
        ls[j].target := Some(x);
        j := j + 1;
      }
      pending := [];
      if next.Some? && next.value in s {
        IndexOfAt(context.instrs, i + 1);
      }
      c := new Cursor(context, refs, Some(x));
    }

    /** `Emit(opcode, operand)`: creates the instruction and inserts it at the
        position. */
    method Emit(op: Op) returns (c: Cursor)
      requires Valid()
      modifies this, context, set l | l in pending
      ensures Valid() && next == old(next) && managedIds == old(managedIds)
      ensures var i := old(Index());
        context.instrs == old(context.instrs)[..i] + [Instr(old(context.nextUid), op)] + old(context.instrs)[i..]
      ensures Index() == old(Index()) + 1
      ensures forall l :: l in old(pending) ==> l.target == Some(Instr(old(context.nextUid), op))
      ensures pending == []
      ensures context.nextUid == old(context.nextUid) + 1
      ensures context.labels == old(context.labels) && context.onDispose == old(context.onDispose)
      ensures fresh(c) && c.context == context && c.next == Some(Instr(old(context.nextUid), op))
    {
      var x := context.Create(op);
      c := Insert(x);
    }

    // -------------------------------------------------------------------------
    // References bound into the stream

    /** The ids this cursor bound are issued slots of the reference list, in
        strictly increasing order. */
    ghost predicate IdsIssued()
      reads this, refs
    {
      && (forall k :: 0 <= k < |managedIds| ==> managedIds[k] < |refs.items|)
      && (forall j, k :: 0 <= j < k < |managedIds| ==> managedIds[j] < managedIds[k])
    }

    /** `AddReference(obj)`: appends `obj` to the reference list and returns
        its slot, which is the list's length before the call and so larger
        than every id issued before. The first call of a cursor registers,
        once, the dispose action that frees every id the cursor bound. */
    method AddReference(obj: Option<HostObject>) returns (id: nat)
      requires IdsIssued()
      modifies this, context, refs
      ensures IdsIssued()
      ensures id == old(|refs.items|) && refs.items == old(refs.items) + [obj] && refs.Get(id) == obj
      ensures refs.invokers == old(refs.invokers)
      ensures managedIds == old(managedIds) + [id]
      ensures context.onDispose == old(context.onDispose) + if old(managedIds) == [] then [FreeManaged(this)] else []
      ensures context.instrs == old(context.instrs) && context.labels == old(context.labels)
      ensures context.nextUid == old(context.nextUid)
      ensures next == old(next) && pending == old(pending)
    {
      if |managedIds| == 0 {
        context.onDispose := context.onDispose + [FreeManaged(this)];
      }
      managedIds := managedIds + [|refs.items|];
      id := refs.Add(obj);
    }

    /** The dispose action `AddReference` registers: `FreeReference` on every
        id the cursor bound, including ids bound after registration. */
    method FreeManagedIds()
      requires IdsIssued()
      modifies refs
      ensures |refs.items| == old(|refs.items|)
      ensures forall k :: 0 <= k < |managedIds| ==> refs.items[managedIds[k]] == None
      ensures forall j :: 0 <= j < |refs.items| && j !in managedIds ==> refs.items[j] == old(refs.items[j])
      ensures forall id :: id in refs.invokers <==> id in old(refs.invokers) && id !in managedIds
      ensures forall id :: id in refs.invokers ==> refs.invokers[id] == old(refs.invokers)[id]
    {
      ghost var items0, invokers0 := refs.items, refs.invokers;
      ghost var done: set<nat> := {};
      var i := 0;
      while i < |managedIds|
        invariant 0 <= i <= |managedIds|
        invariant forall k :: 0 <= k < i ==> managedIds[k] in done
        invariant forall j :: j in done ==> j in managedIds
        invariant FreedFrom(items0, invokers0, refs.items, refs.invokers, done)
      {
        ghost var items1, invokers1 := refs.items, refs.invokers;
        refs.Free(managedIds[i]);
        FreedFromCompose(items0, invokers0, items1, invokers1, done, refs.items, refs.invokers, {managedIds[i]});
        done := done + {managedIds[i]};
        i := i + 1;
      }
    }

    /** One `Emit` of a straight run of emits that started at `i0` on the
        stream `s0`: the run grows by `op`. */
    method EmitNext(op: Op, ghost s0: seq<Instr>, ghost i0: nat, ghost ops: seq<Op>)
      requires Valid() && InsertedAt(s0, context.instrs, i0, ops) && Index() == i0 + |ops|
      modifies this, context, set l | l in pending
      ensures Valid() && next == old(next) && pending == [] && managedIds == old(managedIds)
      ensures InsertedAt(s0, context.instrs, i0, ops + [op]) && Index() == i0 + |ops| + 1
      ensures context.instrs[..i0 + |ops|] == old(context.instrs)[..i0 + |ops|]
      ensures context.instrs[i0 + |ops|] == Instr(old(context.nextUid), op)
      ensures forall l :: l in old(pending) ==> l.target == Some(Instr(old(context.nextUid), op))
      ensures context.nextUid == old(context.nextUid) + 1
      ensures context.labels == old(context.labels) && context.onDispose == old(context.onDispose)
    {
      ghost var mid := context.instrs;
      ghost var at := i0 + |ops|;
      var c := Emit(op);
      ghost var x := Instr(old(context.nextUid), op);
      assert context.instrs == mid[..at] + [x] + mid[at..];
      assert context.instrs[..at] == mid[..at];
      InsertedAtStep(s0, mid, i0, ops, x);
    }

    /** `EmitGetReference<T>(id)`: inserts the reference load for `id` at the
        position; the cursor stays after it, and the pending labels now
        target its first instruction. */
    method EmitGetReference(id: nat, t: TypeRef, isValueType: bool)
      requires Valid()
      modifies this, context, set l | l in pending
      ensures Valid() && next == old(next) && pending == [] && managedIds == old(managedIds)
      ensures InsertedAt(old(context.instrs), context.instrs, old(Index()), ReferenceLoad(id, t, isValueType))
      ensures Index() == old(Index()) + |ReferenceLoad(id, t, isValueType)|
      ensures forall l :: l in old(pending) ==> l.target == Some(Instr(old(context.nextUid), Op(Ldc_I4, IntOperand(id))))
      ensures context.labels == old(context.labels) && context.onDispose == old(context.onDispose)
    {
      ghost var s0 := context.instrs;
      ghost var i0 := Index();
      InsertedAtNone(s0, i0);
      var load := Op(Ldc_I4, IntOperand(id));
      var call := Op(Call, MethodOperand(GetReferenceMethod));
      EmitNext(load, s0, i0, []);
      assert [] + [load] == [load];
      EmitNext(call, s0, i0, [load]);
      assert [load] + [call] == ReferenceLoad(id, t, false);
      if isValueType {
        EmitNext(Op(Unbox_Any, TypeOperand(t)), s0, i0, ReferenceLoad(id, t, false));
        assert ReferenceLoad(id, t, false) + [Op(Unbox_Any, TypeOperand(t))] == ReferenceLoad(id, t, true);
      }
    }

    /** `EmitReference<T>(obj)`: binds `obj` with `AddReference`, then inserts
        the reference load for the new id. */
    method EmitReference(obj: Option<HostObject>, t: TypeRef, isValueType: bool) returns (id: nat)
      requires Valid() && IdsIssued()
      modifies this, context, refs, set l | l in pending
      ensures Valid() && IdsIssued() && next == old(next) && pending == []
      ensures id == old(|refs.items|) && refs.items == old(refs.items) + [obj] && refs.invokers == old(refs.invokers)
      ensures managedIds == old(managedIds) + [id]
      ensures context.onDispose == old(context.onDispose) + if old(managedIds) == [] then [FreeManaged(this)] else []
      ensures InsertedAt(old(context.instrs), context.instrs, old(Index()), ReferenceLoad(id, t, isValueType))
      ensures Index() == old(Index()) + |ReferenceLoad(id, t, isValueType)|
      ensures forall l :: l in old(pending) ==> l.target == Some(Instr(old(context.nextUid), Op(Ldc_I4, IntOperand(id))))
      ensures context.labels == old(context.labels)
    {
      id := AddReference(obj);
      EmitGetReference(id, t, isValueType);
    }

    /** `EmitDelegatePush(cb)`: `EmitReference` of the delegate, whose type is
        a reference type, so no unboxing follows. */
    method EmitDelegatePush(cb: HostObject) returns (id: nat)
      requires Valid() && IdsIssued()
      modifies this, context, refs, set l | l in pending
      ensures Valid() && IdsIssued() && next == old(next) && pending == []
      ensures id == old(|refs.items|) && refs.items == old(refs.items) + [Some(cb)] && refs.invokers == old(refs.invokers)
      ensures managedIds == old(managedIds) + [id]
      ensures context.onDispose == old(context.onDispose) + if old(managedIds) == [] then [FreeManaged(this)] else []
      ensures InsertedAt(old(context.instrs), context.instrs, old(Index()), ReferenceLoad(id, cb.runtimeType, false))
      ensures Index() == old(Index()) + 2
      ensures forall l :: l in old(pending) ==> l.target == Some(Instr(old(context.nextUid), Op(Ldc_I4, IntOperand(id))))
      ensures context.labels == old(context.labels)
    {
      id := EmitReference(Some(cb), cb.runtimeType, false);
    }

    /** `EmitDelegateInvoke(id)`: inserts `callvirt Invoke` of the runtime
        type of the delegate bound at `id`. A freed id holds `null`, and the
        source throws on it. */
    method EmitDelegateInvoke(id: nat) returns (r: nat)
      requires Valid() && id < |refs.items| && refs.Get(id).Some?
      modifies this, context, set l | l in pending
      ensures Valid() && next == old(next) && pending == [] && managedIds == old(managedIds) && r == id
      ensures var call := Op(Callvirt, MethodOperand(InvokeMethod(refs.Get(id).value.runtimeType)));
        && context.instrs == old(context.instrs)[..old(Index())] + [Instr(old(context.nextUid), call)] + old(context.instrs)[old(Index())..]
        && forall l :: l in old(pending) ==> l.target == Some(Instr(old(context.nextUid), call))
      ensures Index() == old(Index()) + 1
      ensures context.labels == old(context.labels) && context.onDispose == old(context.onDispose)
    {
      var c := Emit(Op(Callvirt, MethodOperand(InvokeMethod(refs.Get(id).value.runtimeType))));
      r := id;
    }

    /** `EmitDelegate(Action cb)`: the reference load of the delegate, then a
        direct `callvirt Invoke`; nothing else is emitted and no stub is
        generated. */
    method EmitAction(cb: HostObject) returns (id: nat)
      requires Valid() && IdsIssued()
      modifies this, context, refs, set l | l in pending
      ensures Valid() && IdsIssued() && next == old(next) && pending == []
      ensures id == old(|refs.items|) && refs.items == old(refs.items) + [Some(cb)] && refs.invokers == old(refs.invokers)
      ensures managedIds == old(managedIds) + [id]
      ensures context.onDispose == old(context.onDispose) + if old(managedIds) == [] then [FreeManaged(this)] else []
      ensures InsertedAt(old(context.instrs), context.instrs, old(Index()),
                ReferenceLoad(id, cb.runtimeType, false) + [Op(Callvirt, MethodOperand(InvokeMethod(cb.runtimeType)))])
      ensures Index() == old(Index()) + 3
      ensures forall l :: l in old(pending) ==> l.target == Some(Instr(old(context.nextUid), Op(Ldc_I4, IntOperand(id))))
      ensures context.labels == old(context.labels)
    {
      ghost var s0 := context.instrs;
      ghost var i0 := Index();
      var pushed := EmitDelegatePush(cb);
      ghost var mid := context.instrs;
      id := EmitDelegateInvoke(pushed);
      InsertedAtStep(s0, mid, i0, ReferenceLoad(id, cb.runtimeType, false), context.instrs[i0 + 2]);
    }

    /** `EmitDelegate<T>(cb)`: the reference load of the delegate, then a
        call of a generated stub that takes the arguments and the delegate
        and invokes it (see module `Stubs`). The stub is kept beside the
        delegate's id; `stubHandle` stands for the method the stub is
        compiled to. */
    method EmitDelegate(cb: HostObject, params: seq<TypeRef>, ret: TypeRef, stubHandle: HostObject)
      returns (id: nat, stub: Stubs.Stub)
      requires Valid() && IdsIssued()
      modifies this, context, refs, set l | l in pending
      ensures Valid() && IdsIssued() && next == old(next) && pending == []
      ensures id == old(|refs.items|) && refs.items == old(refs.items) + [Some(cb)]
      ensures refs.invokers == old(refs.invokers)[id := stubHandle]
      ensures managedIds == old(managedIds) + [id]
      ensures context.onDispose == old(context.onDispose) + if old(managedIds) == [] then [FreeManaged(this)] else []
      ensures InsertedAt(old(context.instrs), context.instrs, old(Index()),
                ReferenceLoad(id, cb.runtimeType, false) + [Op(Call, MethodOperand(GeneratedMethod(stubHandle)))])
      ensures Index() == old(Index()) + 3
      ensures stub.sig == Stubs.Signature(params + [cb.runtimeType], ret)
      ensures stub.body == Stubs.StubBody(|params|, cb.runtimeType)
      ensures forall l :: l in old(pending) ==> l.target == Some(Instr(old(context.nextUid), Op(Ldc_I4, IntOperand(id))))
      ensures context.labels == old(context.labels)
    {
      ghost var s0 := context.instrs;
      ghost var i0 := Index();
      id := EmitDelegatePush(cb);
      var delType := refs.Get(id).value.runtimeType;
      stub := Stubs.BuildStub(params, ret, delType);
      refs.SetInvoker(id, stubHandle);
      EmitNext(Op(Call, MethodOperand(GeneratedMethod(stubHandle))), s0, i0, ReferenceLoad(id, cb.runtimeType, false));
    }
  }
}
