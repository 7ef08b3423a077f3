# CecIL cursor and runtime reference binding, modelled in Dafny

This project models two parts of MonoMod.

The first is `CecILCursor`, a cursor over a method body's instruction list.
- Its position is "just before `Next`". `Next == null` means the end of the stream, and the numeric `Index` is derived from `Next`.
- It searches for contiguous runs of instruction predicates (`TryGotoNext`, `TryGotoPrev`) and for chains of separately matched predicates (`TryFindNext`, `TryFindPrev`).
- It compares positions (`IsBefore`, `IsAfter`).
- It edits the stream (`Remove`, `_Insert`/`Emit`). An insertion retargets the labels that `MarkLabel`/`MoveAfterLabel` left pending.
- It binds host objects into a process-wide, append-only `References` list. Each cursor frees its ids when the context is disposed.
- It emits the instruction shapes that load a bound object back (`EmitReference`, `EmitGetReference`) and that call a bound delegate (`EmitDelegate`).

The second is the runtime detour layer's `RuntimeILCursorExtensions` with its typed arena `ReferenceStore<T>`.
- The arena is a static array that starts with 4 slots and doubles when full. Its ids are handed out in increasing order and never reissued. `Clear` overwrites one slot with `default(T)`.
- `AddReference` registers that `Clear` with the context.
- `EmitGetReference` and `EmitReference` emit `ldc.i4 id; call ReferenceStore<T>.Get`.
- `EmitDelegate` takes one of two paths:
  - a delegate that casts to `Action` gets a direct `callvirt Invoke`;
  - any other delegate gets a generated adapter stub `(P1..Pn, delType)`, with body `ldarg n; ldarg 0..n-1; callvirt Invoke; ret`. The stub is pinned in the arena and called with one `call`.

Modules, one per concern:

- `Instructions` (instructions.dfy) holds the shared vocabulary:
  - an abstract instruction set;
  - instructions `Instr(uid, op)`, whose `uid` is the object identity Cecil uses;
  - predicates, where `Wildcard` is a `null` predicate;
  - `IndexOrCount`, which is `Instrs.IndexOf` with the fall-back to `Count`.
- `Search` (search.dfy) defines the searches as functions, independent of any cursor object:
  - the first and last contiguous run;
  - the next and previous single match;
  - the forward and backward chains with their restart loops.
  It proves their properties. It also holds the as-written start of `TryGotoPrev` (see Findings).
- `CecIL` (cecil_cursor.dfy) holds:
  - the context (instruction list, labels, dispose actions);
  - `Label`;
  - the static reference list;
  - the `Cursor` class. Its loops are proved against the `Search` functions.
- `Stubs` (stubs.dfy) holds the adapter stub's signature and body. A small evaluation-stack machine shows that the stub forwards its arguments, in order, to the delegate's `Invoke`. That stack order is the one `callvirt` needs, as given in ECMA-335, Partition III, section 4.2.
- `ReferenceStores` (reference_store.dfy) holds `ReferenceStore<T>` as a class over an `array`.
- `RuntimeExtensions` (runtime_extensions.dfy) holds the extension methods.

The cursor of the extension methods, `ILCursor`, is not part of this model. `CecIL.Cursor` stands in for it, and `CecIL.Context` stands in for `ILContext`.

The chained search keeps the first anchor even when a later one is nearer to the next match. Over `A(P1) X Y(P1) Z(P2)`, `FindNext([P1, P2])` searches for `P2` from the first anchor `A` with a plain forward search. That search reaches `Z`, so it reports `A` then `Z`, not `Y` then `Z` (`Search.FindNextNearestAnchor`). More generally, the restart loop never changes the outcome: the chained search succeeds exactly when the chain from the first anchor does (`Search.FindNextNoRestart`, `Search.FindPrevNoRestart`).

## Model

| member | source | states |
|---|---|---|
| Instructions.IndexOrCount | MonoMod.Utils/CecILCursor.cs:73-79 | The index of `x` in the stream; it is `Count` exactly when `x` is null or not in the stream |
| Instructions.IndexFrom | MonoMod.Utils/CecILCursor.cs:73-79 | The first index at or after `k` holding `x`, or `Count`; it is `Count` exactly when `x` is null or not in the rest of the stream |
| Instructions.IndexOfAt | MonoMod.Utils/CecILCursor.cs:73-81 | In a stream with no repeated instruction, the index of the instruction at `i` is `i` (the `Index` round trip rests on this) |
| Instructions.DistinctInsert | MonoMod.Utils/CecILCursor.cs:243-244 | Inserting an instruction object not yet in the stream keeps it free of repetitions |
| Instructions.DistinctRemove | MonoMod.Utils/CecILCursor.cs:96-98 | Removing an instruction keeps the stream free of repetitions, and the removed instruction is no longer in it |
| Search.FirstRun | MonoMod.Utils/CecILCursor.cs:128-142 | The smallest start `>= lo` of a run: the window fits in the stream and every non-null predicate holds on its instruction; no earlier start is a run; `None` only if no start `>= lo` is a run |
| Search.LastRun | MonoMod.Utils/CecILCursor.cs:148-167 | The largest start `<= hi` of a run, no later start up to `hi` is a run, `None` only if none is |
| Search.LastRunSkip | MonoMod.Utils/CecILCursor.cs:150-153 | Lowering the starting point past starts that are not runs does not change the last run (what a correct clamp relies on) |
| Search.NextMatch | MonoMod.Utils/CecILCursor.cs:177 | The first instruction at or after `lo` that the predicate holds on, nothing before it matches, `None` only if nothing does |
| Search.PrevMatch | MonoMod.Utils/CecILCursor.cs:205 | The last instruction at or before `hi` that the predicate holds on, nothing after it up to `hi` matches, `None` only if nothing does |
| Search.NextMatchIsRun | MonoMod.Utils/CecILCursor.cs:177 | A one-predicate `TryGotoNext` search is exactly the next single match |
| Search.PrevMatchIsRun | MonoMod.Utils/CecILCursor.cs:205 | A one-predicate `TryGotoPrev` search is exactly the previous single match |
| Search.NextMatchMonotone | MonoMod.Utils/CecILCursor.cs:181 | Starting a forward search later finds no earlier match, and fails if the earlier search failed |
| Search.PrevMatchMonotone | MonoMod.Utils/CecILCursor.cs:209 | Starting a backward search earlier finds no later match, and fails if the later search failed |
| Search.NextMatchSkip | MonoMod.Utils/CecILCursor.cs:177 | Skipping instructions the predicate does not hold on leaves the next match unchanged |
| Search.PrevMatchSkip | MonoMod.Utils/CecILCursor.cs:205 | Skipping instructions the predicate does not hold on leaves the previous match unchanged |
| Search.FindNextFromSkip | MonoMod.Utils/CecILCursor.cs:177-191 | Skipping positions at which no anchor's chain succeeds leaves the outcome of the forward chained search unchanged |
| Search.ChainNext | MonoMod.Utils/CecILCursor.cs:180-184 | The forward inner loop as a function: a successful chain from predicate `k` has one position per remaining predicate |
| Search.FindNextFrom | MonoMod.Utils/CecILCursor.cs:177-191 | The forward outer loop as a function: a result has one position per predicate and starts at or after `lo` |
| Search.FindNextFromFirst | MonoMod.Utils/CecILCursor.cs:177-191 | A result starts at an anchor whose whole chain succeeds, no earlier anchor from `lo` on does, and the search fails exactly when no anchor from `lo` on succeeds |
| Search.FindNextMissed | MonoMod.Utils/CecILCursor.cs:177-194 | When no anchor is left, the forward chained search fails |
| Search.FindNextFound | MonoMod.Utils/CecILCursor.cs:180-187 | When the next anchor's chain succeeds, the result is that anchor followed by its chain |
| Search.FindNextPassed | MonoMod.Utils/CecILCursor.cs:189-191 | When the next anchor's chain fails, no position up to and including that anchor succeeds |
| Search.ChainNextMiss | MonoMod.Utils/CecILCursor.cs:181-182 | A predicate with no match after the previous one makes the whole forward chain fail |
| Search.ChainNextStep | MonoMod.Utils/CecILCursor.cs:180-184 | A predicate's next match joins the matches found so far and the chain goes on from it |
| Search.ChainNextMonotone | MonoMod.Utils/CecILCursor.cs:180-184 | A forward chain that fails from one position also fails from every later position |
| Search.FindNextNoRestart | MonoMod.Utils/CecILCursor.cs:177-192 | The forward chained search succeeds exactly when the chain from the first anchor succeeds, with that chain as its result: the restart never changes the outcome |
| Search.FindNextNearestAnchor | MonoMod.Utils/CecILCursor.cs:177-187 | Over `A X Y Z`, with the first predicate on `A` and `Y` and the second on `Z`, the result is `A` then `Z` |
| Search.ChainNextSound | MonoMod.Utils/CecILCursor.cs:180-184 | A successful forward chain has one match per predicate, each on an instruction its predicate holds on, each the nearest such after the previous match (so the indices strictly increase) |
| Search.FindPrevFromSkip | MonoMod.Utils/CecILCursor.cs:205-219 | The backward mirror of `FindNextFromSkip` |
| Search.ChainPrev | MonoMod.Utils/CecILCursor.cs:208-212 | The backward inner loop as a function: a successful chain of the first `k` predicates has `k` positions |
| Search.FindPrevFrom | MonoMod.Utils/CecILCursor.cs:205-219 | The backward outer loop as a function: a result has one position per predicate and ends at or before `hi` |
| Search.FindPrevFromLast | MonoMod.Utils/CecILCursor.cs:205-219 | A result ends at an anchor whose whole chain succeeds, no later anchor up to `hi` does, and the search fails exactly when no anchor up to `hi` succeeds |
| Search.FindPrevMissed | MonoMod.Utils/CecILCursor.cs:205-222 | When no anchor is left, the backward chained search fails |
| Search.FindPrevFound | MonoMod.Utils/CecILCursor.cs:208-215 | When the previous anchor's chain succeeds, the result is that chain followed by the anchor |
| Search.FindPrevPassed | MonoMod.Utils/CecILCursor.cs:217-219 | When the previous anchor's chain fails, no position down to that anchor succeeds |
| Search.ChainPrevMiss | MonoMod.Utils/CecILCursor.cs:209-210 | A predicate with no match before the next one makes the whole backward chain fail |
| Search.ChainPrevStep | MonoMod.Utils/CecILCursor.cs:208-212 | A predicate's previous match joins the front of the matches found so far |
| Search.ChainPrevMonotone | MonoMod.Utils/CecILCursor.cs:208-212 | A backward chain that fails from one position also fails from every earlier position |
| Search.FindPrevNoRestart | MonoMod.Utils/CecILCursor.cs:205-220 | The backward chained search succeeds exactly when the chain from the first anchor succeeds: the restart never changes the outcome |
| Search.ChainPrevSound | MonoMod.Utils/CecILCursor.cs:208-212 | A successful backward chain has one match per predicate, in stream order, each on an instruction its predicate holds on, each the nearest such before the next match |
| Search.PrevClampReadsPastEnd | MonoMod.Utils/CecILCursor.cs:150-158 | As written, with the cursor at the end of a one-instruction stream and predicates `[null, p]`, the search reads past the end and throws, although no window fits |
| Search.PrevClampOverhangs | MonoMod.Utils/CecILCursor.cs:150-161 | As written, with predicates `[p, null]` at the same place, the search reports a run at 0 whose window overhangs the stream |
| Search.ProbeInWindow | MonoMod.Utils/CecILCursor.cs:156-158 | Inside the stream, the as-written inner loop is exactly the run test |
| Search.ScanInWindow | MonoMod.Utils/CecILCursor.cs:155-166 | From a start whose window fits, the as-written outer loop finds the last run |
| Search.PrevAsWrittenAgrees | MonoMod.Utils/CecILCursor.cs:148-167 | Whenever the first window tried fits, and so for every one-predicate search, the as-written `TryGotoPrev` agrees with the intended one |
| Search.ProbeAsWritten | MonoMod.Utils/CecILCursor.cs:156-158 | The as-written inner loop: a null predicate never reads its instruction, so it reads past the end (and throws) only when the window overhangs the stream |
| Search.PrevStartAsWritten | MonoMod.Utils/CecILCursor.cs:149-153 | The as-written clamp: it starts just before the cursor when that window ends within `Count + 1`, and otherwise at `Count + 1 - len`, one past the last window that fits |
| Search.ScanBackAsWritten | MonoMod.Utils/CecILCursor.cs:155-166 | The as-written outer loop stops at the first start, going down, whose probe matches or throws; `NotFound` means every start mismatched; a throw needs an overhanging window |
| Search.GotoPrevAsWritten | MonoMod.Utils/CecILCursor.cs:148-167 | The as-written `TryGotoPrev`: a match lies strictly before the cursor, and a throw needs the window just before the cursor to overhang the stream |
| CecIL.Context.Create | MonoMod.Utils/CecILCursor.cs:254-293 | `IL.Create`: a new instruction with the next identity, not in the stream; nothing else changes |
| CecIL.Context.Dispose | MonoMod.Utils/CecILCursor.cs:22-25 | Running the dispose actions in order leaves every id any cursor bound reading `null`, and every id bound in a typed store reading that store's default. A reference slot changes, or loses its invoker, only if some cursor among the actions bound it; every other invoker is kept; a store slot changes only if a clear names it |
| CecIL.Context.RunAll | MonoMod.Utils/CecILCursor.cs:22-25 | The dispose loop: afterwards exactly the ids the cursors among the actions bound are freed, every clear holds its default, and a store slot differs from its starting value only where a clear names it |
| CecIL.FreedFromCompose | MonoMod.Utils/CecILCursor.cs:22-25 | Freeing one set of ids and then another frees their union, with every other slot and invoker kept |
| CecIL.Context.Run | MonoMod.RuntimeDetour/HookGen/RuntimeILCursorExtensions.cs:17 | One dispose action: a store clear changes one slot to the default and leaves the reference list and invokers alone; a cursor's free loop nulls exactly that cursor's ids and drops exactly their invokers; `null` slots stay `null` |
| CecIL.ReferenceList.Get | MonoMod.Utils/CecILCursor.cs:16 | `GetReference(id)` reads slot `id`; an id outside the list is not allowed |
| CecIL.ReferenceList.Set | MonoMod.Utils/CecILCursor.cs:17 | `SetReference` replaces exactly slot `id` and leaves the invokers alone |
| CecIL.ReferenceList.Add | MonoMod.Utils/CecILCursor.cs:29-32 | The append returns the old length as the id, and reading that id gives the object |
| CecIL.ReferenceList.Free | MonoMod.Utils/CecILCursor.cs:35-39 | `FreeReference` nulls only slot `id`, never shrinks the list, and drops the stub kept for `id` |
| CecIL.ReferenceList.SetInvoker | MonoMod.Utils/CecILCursor.cs:364 | The stub generated for a delegate is recorded under the delegate's id; the list is unchanged |
| CecIL.LabelsAt | MonoMod.Utils/CecILCursor.cs:112 | The labels of the context that target the position, and only those |
| CecIL.MatchesAt | MonoMod.Utils/CecILCursor.cs:131-133 | The inner loop of the run searches returns true exactly when a run starts at `i` |
| CecIL.MarkThenEmitTwice | MonoMod.Utils/CecILCursor.cs:243-252 | After `MarkLabel` and two emits, the label targets the first emitted instruction, which sits where the cursor was, and the cursor is two past it |
| CecIL.Cursor.constructor | MonoMod.Utils/CecILCursor.cs:83-86 | A well-formed cursor on a well-formed context, before `instr`, with no pending labels and no bound ids |
| CecIL.Cursor.Clone | MonoMod.Utils/CecILCursor.cs:88-94 | A new cursor on the same context at the same instruction |
| CecIL.Cursor.Index | MonoMod.Utils/CecILCursor.cs:73-79 | The index of `Next`; the end, and an instruction no longer in the stream, read as `Count` |
| CecIL.Cursor.SetNext | MonoMod.Utils/CecILCursor.cs:48-53 | Assigning a different instruction drops the pending labels; assigning the same one keeps them |
| CecIL.Cursor.SetIndex | MonoMod.Utils/CecILCursor.cs:80 | Setting `Index := k` for `k <= Count` reads back `k`; `k == Count` is `Next == null` |
| CecIL.Cursor.Prev | MonoMod.Utils/CecILCursor.cs:56 | The instruction before the position, wrapping to the last instruction at the first position and at the end |
| CecIL.Cursor.SetPrev | MonoMod.Utils/CecILCursor.cs:57 | Moves after `v`, wrapping to the first instruction when `v` is the last one or null; as with any assignment of `Next`, the pending labels survive only if `Next` did not change |
| CecIL.Cursor.PrevRoundTrip | MonoMod.Utils/CecILCursor.cs:55-58 | Reading `Prev` and assigning it back returns to the same instruction, except at the end, where it lands on the first |
| CecIL.Cursor.IsBefore | MonoMod.Utils/CecILCursor.cs:225-230 | True when the position is at or before `x`; an absent `x` compares as the end, so the result is true |
| CecIL.Cursor.IsAfter | MonoMod.Utils/CecILCursor.cs:232-237 | Exactly `!IsBefore(x)`; true only for an instruction in the stream |
| CecIL.Cursor.Remove | MonoMod.Utils/CecILCursor.cs:96-100 | The instruction at the position is taken out, and the stream is otherwise unchanged; `Index` stays the same; pending labels are dropped |
| CecIL.Cursor.GotoLabel | MonoMod.Utils/CecILCursor.cs:102-104 | Moves to the label's target |
| CecIL.Cursor.MarkLabel | MonoMod.Utils/CecILCursor.cs:106-109 | The label targets the position and is the only pending label |
| CecIL.Cursor.MoveAfterLabel | MonoMod.Utils/CecILCursor.cs:111-113 | The pending labels are exactly the context's labels that target the position |
| CecIL.Cursor.MoveBeforeLabel | MonoMod.Utils/CecILCursor.cs:115-117 | No label is pending |
| CecIL.Cursor.TryGotoNext | MonoMod.Utils/CecILCursor.cs:128-142 | Succeeds exactly when a run starts after the position, and then moves to the first such run; on failure the position and the pending labels are unchanged |
| CecIL.Cursor.TryGotoPrev | MonoMod.Utils/CecILCursor.cs:148-167 | Succeeds exactly when a run whose window fits starts before the position, and then moves to the last such run; on failure nothing changes (the corrected clamp, see Findings) |
| CecIL.Cursor.GotoNextMatch | MonoMod.Utils/CecILCursor.cs:177 | `TryGotoNext` with one predicate moves to the next single match, or stays put |
| CecIL.Cursor.GotoPrevMatch | MonoMod.Utils/CecILCursor.cs:205 | `TryGotoPrev` with one predicate moves to the previous single match, or stays put |
| CecIL.Cursor.TryFindNext | MonoMod.Utils/CecILCursor.cs:173-195 | Succeeds exactly when the forward chained search does. On success there is one cursor per predicate at the chain's indices, and the cursor is back at the first match. On failure `Next` is restored, and the pending labels survive only if no anchor was ever found |
| CecIL.Cursor.RoundNext | MonoMod.Utils/CecILCursor.cs:177-191 | One round: moves to the next anchor, if any, and reports whether its chain succeeded, with the clones placed and the cursor back at the anchor; without an anchor the position and pending labels are unchanged |
| CecIL.Cursor.ChainForward | MonoMod.Utils/CecILCursor.cs:180-184 | Walks the later predicates' next matches, cloning a cursor at each. It succeeds exactly when the forward chain from the anchor does |
| CecIL.Cursor.StepForward | MonoMod.Utils/CecILCursor.cs:181-183 | One step of the inner loop moves to the predicate's next match and clones there; earlier clones stay put |
| CecIL.Cursor.TryFindPrev | MonoMod.Utils/CecILCursor.cs:201-223 | The mirror: succeeds exactly when the backward chained search does. The cursors sit at increasing indices, and the cursor ends at the last predicate's match. On failure `Next` is restored, and the pending labels survive only if no anchor was ever found |
| CecIL.Cursor.RoundPrev | MonoMod.Utils/CecILCursor.cs:205-219 | One backward round, the mirror of `RoundNext`, with the same "no anchor, nothing changes" case |
| CecIL.Cursor.ChainBackward | MonoMod.Utils/CecILCursor.cs:208-212 | Walks the earlier predicates' previous matches, cloning at each. It succeeds exactly when the backward chain from the anchor does |
| CecIL.Cursor.StepBackward | MonoMod.Utils/CecILCursor.cs:209-211 | One step of the backward inner loop, the mirror of `StepForward` |
| CecIL.Cursor.Insert | MonoMod.Utils/CecILCursor.cs:243-252 | The count grows by one and the new instruction lands at the old index, with all others in order. `Next` is unchanged, so `Index` grows by one. Every pending label now targets the new instruction, and none is pending |
| CecIL.Cursor.Emit | MonoMod.Utils/CecILCursor.cs:254-293 | Creates an instruction and inserts it as `Insert` does |
| CecIL.Cursor.EmitNext | MonoMod.Utils/CecILCursor.cs:254-293 | One more emit in a straight run of emits: the run grows by that instruction right after the earlier ones, the earlier stream before it is kept, and the pending labels target it |
| CecIL.Cursor.AddReference | MonoMod.Utils/CecILCursor.cs:20-33 | Returns the old length of the reference list as the id, appends the object, and records the id. The ids a cursor holds stay issued and strictly increasing. The free-all dispose action is registered on the first call only |
| CecIL.Cursor.FreeManagedIds | MonoMod.Utils/CecILCursor.cs:22-25 | Every id the cursor bound reads `null` and loses its invoker; other slots and invokers are unchanged, and the list keeps its length |
| CecIL.ReferenceLoad | MonoMod.Utils/CecILCursor.cs:315-321 | The load pushes the id and calls `GetReference`, and unboxes exactly when `T` is a value type |
| CecIL.Cursor.EmitGetReference | MonoMod.Utils/CecILCursor.cs:315-321 | Inserts exactly `ldc.i4 id; call GetReference`, plus `unbox.any T` exactly when `T` is a value type, at the position; pending labels target the first of them |
| CecIL.Cursor.EmitReference | MonoMod.Utils/CecILCursor.cs:302-310 | Binds the object with `AddReference`, then inserts the same load sequence for the new id |
| CecIL.Cursor.EmitDelegatePush | MonoMod.Utils/CecILCursor.cs:374-375 | The reference load of the delegate, never unboxed |
| CecIL.Cursor.EmitDelegateInvoke | MonoMod.Utils/CecILCursor.cs:380-383 | Inserts one `callvirt Invoke` of the runtime type of the delegate bound at `id` |
| CecIL.Cursor.EmitAction | MonoMod.Utils/CecILCursor.cs:326-327 | An `Action` delegate: the reference load, then one `callvirt Invoke`, and nothing else; the pending labels target the load's first instruction |
| CecIL.Cursor.EmitDelegate | MonoMod.Utils/CecILCursor.cs:332-369 | The reference load of the delegate, then one `call` of the generated stub. The stub takes the `Invoke` parameters followed by the delegate type, and its body is `ldarg n; ldarg 0..n-1; callvirt Invoke; ret`. It is recorded under the delegate's id; the pending labels target the load's first instruction |
| Stubs.BuildStub | MonoMod.RuntimeDetour/HookGen/RuntimeILCursorExtensions.cs:57-79 | The stub signature is `Invoke`'s parameters followed by the delegate type, and the return type is `Invoke`'s. The body is the one built by the two loops |
| Stubs.StubBody | MonoMod.RuntimeDetour/HookGen/RuntimeILCursorExtensions.cs:72-79 | The body has `n + 3` instructions: `ldarg n`, then `ldarg k` at `k + 1`, then `callvirt Invoke`, then `ret` |
| Stubs.Loads | MonoMod.RuntimeDetour/HookGen/RuntimeILCursorExtensions.cs:75-76 | The load loop emits `ldarg 0 .. ldarg n-1` in order |
| Stubs.Exec | MonoMod.RuntimeDetour/HookGen/RuntimeILCursorExtensions.cs:72-79 | Running a body keeps the calls made before it, and a finished run returns a value exactly when `Invoke` does |
| Stubs.ExecLoads | MonoMod.RuntimeDetour/HookGen/RuntimeILCursorExtensions.cs:75-76 | Running the load loop's instructions pushes the first `n` arguments in order |
| Stubs.StubForwards | MonoMod.RuntimeDetour/HookGen/RuntimeILCursorExtensions.cs:54-55 | Called with `n` arguments and then the delegate, the stub makes exactly one call, the delegate's `Invoke` on those arguments in their original order, and returns its result, or nothing when `Invoke` is `void` |
| Stubs.BuiltStubForwards | MonoMod.RuntimeDetour/HookGen/RuntimeILCursorExtensions.cs:66-79 | The stub as `EmitDelegate` builds it, with parameters `(P1..Pn, delType)` and return type `ret`, makes the one `Invoke` call and returns a value exactly when `ret` is not `System.Void` |
| Stubs.ExecCallRet | MonoMod.RuntimeDetour/HookGen/RuntimeILCursorExtensions.cs:77-78 | `callvirt Invoke; ret` over the delegate and its arguments makes that one call and returns its result |
| ReferenceStores.Capacity | MonoMod.RuntimeDetour/HookGen/RuntimeILCursorExtensions.cs:90 | Capacities are `4 * 2^k`, never below 4 |
| ReferenceStores.ReferenceStore.constructor | MonoMod.RuntimeDetour/HookGen/RuntimeILCursorExtensions.cs:90-91 | Four default slots, nothing issued |
| ReferenceStores.ReferenceStore.Get | MonoMod.RuntimeDetour/HookGen/RuntimeILCursorExtensions.cs:93 | A plain read of slot `id` |
| ReferenceStores.ReferenceStore.Store | MonoMod.RuntimeDetour/HookGen/RuntimeILCursorExtensions.cs:97-107 | Returns the old count and adds exactly one to it. Every earlier slot keeps its value. The array doubles exactly when it was full, and `count <= Length == 4 * 2^k` is kept |
| ReferenceStores.ReferenceStore.Clear | MonoMod.RuntimeDetour/HookGen/RuntimeILCursorExtensions.cs:109-112 | Only slot `id` changes, to the default; the count and capacity stay |
| ReferenceStores.StoreTwiceThenClear | MonoMod.RuntimeDetour/HookGen/RuntimeILCursorExtensions.cs:97-112 | Two stores give consecutive ids. Clearing the first leaves the second value readable |
| RuntimeExtensions.AddReference | MonoMod.RuntimeDetour/HookGen/RuntimeILCursorExtensions.cs:15-19 | Stores the object under the store's old count and registers the clear of exactly that id with the context; the stream is unchanged |
| RuntimeExtensions.StoreLoad | MonoMod.RuntimeDetour/HookGen/RuntimeILCursorExtensions.cs:29-32 | The load pushes the id and calls the typed store's `Get`, and never unboxes |
| RuntimeExtensions.EmitGetReference | MonoMod.RuntimeDetour/HookGen/RuntimeILCursorExtensions.cs:29-32 | Inserts exactly `ldc.i4 id; call ReferenceStore<T>.Get` at the position; the pending labels target its first instruction; the cursor's bound ids are unchanged |
| RuntimeExtensions.EmitReference | MonoMod.RuntimeDetour/HookGen/RuntimeILCursorExtensions.cs:37-41 | `AddReference` through the cursor's context, then that two-instruction load of the new id; the pending labels target its first instruction and the context's labels are unchanged; the cursor's bound ids are unchanged |
| RuntimeExtensions.EmitDelegate | MonoMod.RuntimeDetour/HookGen/RuntimeILCursorExtensions.cs:46-86 | An `Action` gets the load plus one `callvirt Invoke`, and the method store is untouched. Any other delegate gets the load plus one `call` of the stub (signature and body as in `Stubs`); the stub is appended to the method store, every earlier slot kept, with its own dispose-time clear. Either way no label is pending, the pending ones target the load's first instruction, and the context's labels are unchanged; the cursor's bound ids are unchanged |

## Left out

- Locks: the `lock` blocks and the cross-thread reads are not modelled; every operation is sequential. In `CecIL.Cursor.AddReference` the id recorded before the lock equals the returned id only under sequential execution.
- Reflection: several values are inputs to the model, because their implementations are not visible:
  - `GetTypeInfo().IsValueType` becomes the `isValueType` flag;
  - `TryCastDelegate(out Action _)` becomes the `castsToAction` flag;
  - `GetParameters()` and `ReturnType` become the `params` and `ret` lists;
  - an object's `GetType()` becomes its `runtimeType`.
- Code generation: `DynamicMethodDefinition`, `Generate()` and the stub's name are outside the model. The generated method is the input `stubHandle`. The stub is modelled as its signature and instruction list, and `Stubs.Exec` runs that list.
- Emit overloads: the twenty `Emit(OpCode, …)` overloads all reduce to `_Insert` of a new instruction. `CecIL.Cursor.Emit` takes the instruction's opcode and operand as one value.
- `GotoNext`, `GotoPrev`, `FindNext` and `FindPrev` are not modelled separately. Each is its `Try` variant followed by a `KeyNotFoundException` when the result is false. `GetIncomingLabels`, `Method`, `IL`, `Body` and `Module` belong to the context type, which is not part of this model. `Previous` is `Prev` under another name.
- Error paths: exceptions of the source are preconditions where the model has no error value.
  - `Remove` requires `Next` in the stream (`IL.Remove` throws otherwise).
  - `Prev` requires a non-empty stream, and a `Next` in the stream or null. For a `Next` removed from the stream the result depends on the removed instruction's `Previous`, which is not modelled.
  - `GetReference` and `EmitDelegateInvoke` require an issued id, and for the latter a non-null slot.
  - `TryFindNext` and `TryFindPrev` require at least one predicate (`predicates[0]` throws otherwise).
- Generic stores: `ReferenceStore<T>` holds `Option<HostObject>` here. Each `T` is a separate store object, and the element type appears in the emitted `call` as a name. `CecIL.Context.Dispose` requires distinct stores to have distinct arrays, as the static per-`T` arrays do.
- Predicates: instruction predicates are pure, total functions here. The source's `Func<Instruction, bool>` may have side effects (for example, capturing an operand into an `out` variable); those effects are not modelled.
- Void delegates: `Stubs.Exec` takes `returnsValue` (whether `Invoke` returns a value) as an input. For the stub that `EmitDelegate` builds, `Stubs.BuiltStubForwards` ties it to the stub's return type, read as `ret != System.Void`.
- Context disposal: `CecIL.Context.Dispose` runs the registered actions in order. Whatever else `ILContext.Dispose` does is not part of this model.
- CecIL.Cursor.TryFindNext: on failure it says nothing about the clones that abandoned rounds left in the cursor array; the source leaves them there too.
- CecIL.Cursor.TryFindPrev: likewise, on failure it says nothing about the clones left in the cursor array.
- CecIL.Cursor.SetPrev: requires `v` to be null or in the stream. The source's setter also accepts an instruction outside the stream and follows that instruction's own `Next` link, which is not modelled.
- CecIL.Cursor.TryGotoPrev: models the corrected starting point. The as-written one is `Search.GotoPrevAsWritten` (see Findings).

## Findings

| source | as written | input that shows it | evidently intended | confidence | as-written member | corrected member |
|---|---|---|---|---|---|---|
| MonoMod.Utils/CecILCursor.cs:150-153 | `overhang = i + len - 1 - Count` allows a first window that ends one past the stream | cursor at the end of a one-instruction stream with predicates `[null, p]`: `instrs[1]` is read and throws. With `[p, null]` it reports a run at 0 that does not fit | `overhang = i + len - Count`, so that every window tried fits in the stream | not executed | Search.PrevClampReadsPastEnd | CecIL.Cursor.TryGotoPrev |
