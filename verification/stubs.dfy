/** The adapter stub generated for a delegate with parameters `P1..Pn`.

    At the call site the arguments are pushed first and the delegate last (it
    is loaded by a reference load after them), but `callvirt Invoke` wants the
    delegate beneath its arguments (ECMA-335, Partition III, section 4.2). The
    stub takes `(P1..Pn, delType)`, loads its last parameter (the delegate),
    then `P1..Pn` in order, calls `Invoke` and returns its result. */
module Stubs {
  import opened Instructions

  datatype Signature = Signature(paramTypes: seq<TypeRef>, returnType: TypeRef)

  /** A generated method: its signature and its instruction list. */
  datatype Stub = Stub(sig: Signature, body: seq<Op>)

  /** `System.Void`: the return type of an `Invoke` that returns nothing. */
  const VoidType := TypeRef("System.Void")

  /** `ldarg 0 .. ldarg n-1`: argument `k` is loaded by the `k`-th
      instruction. */
  function Loads(n: nat): (r: seq<Op>)
    ensures |r| == n
    ensures forall k :: 0 <= k < n ==> r[k] == Op(Ldarg, IntOperand(k))
  {
    if n == 0 then [] else Loads(n - 1) + [Op(Ldarg, IntOperand(n - 1))]
  }

  /** The instructions the stub is made of, for `n` delegate parameters:
      `n + 3` instructions, the delegate parameter first, then every other
      parameter in its original order, then the call and the return. */
  function StubBody(n: nat, delType: TypeRef): (r: seq<Op>)
    ensures |r| == n + 3
    ensures r[0] == Op(Ldarg, IntOperand(n))
    ensures forall k :: 0 <= k < n ==> r[k + 1] == Op(Ldarg, IntOperand(k))
    ensures r[n + 1] == Op(Callvirt, MethodOperand(InvokeMethod(delType)))
    ensures r[n + 2] == Op(Ret, NoOperand)
  {
    [Op(Ldarg, IntOperand(n))] + Loads(n) + [Op(Callvirt, MethodOperand(InvokeMethod(delType))), Op(Ret, NoOperand)]
  }

  /** Builds the stub's signature and body as the source does: the parameter
      types copied in a loop with the delegate type appended, and the body
      emitted one instruction at a time. */
  method BuildStub(params: seq<TypeRef>, ret: TypeRef, delType: TypeRef) returns (stub: Stub)
    ensures stub.sig.paramTypes == params + [delType]
    ensures stub.sig.returnType == ret
    ensures stub.body == StubBody(|params|, delType)
  {
    var n := |params|;
    var argTypes: seq<TypeRef> := [];
    var i := 0;
    while i < n
      invariant 0 <= i <= n
      invariant argTypes == params[..i]
    {
      argTypes := argTypes + [params[i]];
      i := i + 1;
    }
    argTypes := argTypes + [delType];

    var body := [Op(Ldarg, IntOperand(n))];
    i := 0;
    while i < n
      invariant 0 <= i <= n
      invariant body == [Op(Ldarg, IntOperand(n))] + Loads(i)
    {
      body := body + [Op(Ldarg, IntOperand(i))];
      i := i + 1;
    }
    body := body + [Op(Callvirt, MethodOperand(InvokeMethod(delType))), Op(Ret, NoOperand)];
    stub := Stub(Signature(argTypes, ret), body);
  }

  // ---------------------------------------------------------------------------
  // A small evaluation-stack machine for the three opcodes a stub uses

  /** One `Invoke` call the stub makes: the delegate and its arguments. */
  datatype Invocation<V> = Invocation(target: V, arguments: seq<V>)

  /** What running a body did: the calls it made, in order, and the value it
      returned (`None` for a `void` return). */
  datatype Outcome<V> = Outcome(calls: seq<Invocation<V>>, result: Option<V>)

  /** Runs `body` with the given arguments, after the calls `calls` already
      made. `Callvirt` pops `arity` arguments and, beneath them, the object
      whose `Invoke` it calls, logs the call and, when `Invoke` returns a
      value (`returnsValue`), pushes `invoke(target, arguments)`; `Ret`
      returns the single value left on the stack, or nothing from an empty
      stack when `Invoke` is `void`. Anything else is a malformed body
      (`None`). A finished run keeps the calls made before it and returns a
      value exactly when `Invoke` does. */
  function Exec<V>(body: seq<Op>, args: seq<V>, arity: nat, returnsValue: bool, invoke: (V, seq<V>) -> V,
                   stack: seq<V>, calls: seq<Invocation<V>>): (r: Option<Outcome<V>>)
    ensures r.Some? ==> |calls| <= |r.value.calls| && r.value.calls[..|calls|] == calls
    ensures r.Some? ==> (r.value.result.Some? <==> returnsValue)
    decreases |body|
  {
    if body == [] then None
    else
      var op := body[0];
      match op.opcode
      case Ldarg =>
        if op.operand.IntOperand? && 0 <= op.operand.n < |args|
        then Exec(body[1..], args, arity, returnsValue, invoke, stack + [args[op.operand.n]], calls)
        else None
      case Callvirt =>
        if |stack| >= arity + 1 then
          var base := |stack| - arity - 1;
          var call := Invocation(stack[base], stack[base + 1..]);
          var pushed: seq<V> := if returnsValue then [invoke(stack[base], stack[base + 1..])] else [];
          var r := Exec(body[1..], args, arity, returnsValue, invoke, stack[..base] + pushed, calls + [call]);
          assert r.Some? ==> r.value.calls[..|calls|] == r.value.calls[..|calls + [call]|][..|calls|];
          r
        else None
      case Ret =>
        if returnsValue && |stack| == 1 then Some(Outcome(calls, Some(stack[0])))
        else if !returnsValue && stack == [] then Some(Outcome(calls, None))
        else None
      case _ => None
  }

  /** Running `ldarg 0 .. ldarg n-1` pushes the first `n` arguments in order. */
  lemma {:induction false} ExecLoads<V>(n: nat, rest: seq<Op>, args: seq<V>, arity: nat, returnsValue: bool,
                                        invoke: (V, seq<V>) -> V, stack: seq<V>, calls: seq<Invocation<V>>)
    requires n <= |args|
    ensures Exec(Loads(n) + rest, args, arity, returnsValue, invoke, stack, calls)
            == Exec(rest, args, arity, returnsValue, invoke, stack + args[..n], calls)
  {
    if n == 0 {
      assert Loads(0) + rest == rest;
      assert stack + args[..0] == stack;
    } else {
      var ld := Op(Ldarg, IntOperand(n - 1));
      var before := stack + args[..n - 1];
      assert Loads(n) + rest == Loads(n - 1) + ([ld] + rest);
      ExecLoads(n - 1, [ld] + rest, args, arity, returnsValue, invoke, stack, calls);
      ExecLdarg(n - 1, rest, args, arity, returnsValue, invoke, before, calls);
      assert before + [args[n - 1]] == stack + args[..n];
    }
  }

  /** One `ldarg k` pushes argument `k` and goes on with the rest. */
  lemma ExecLdarg<V>(k: nat, rest: seq<Op>, args: seq<V>, arity: nat, returnsValue: bool,
                     invoke: (V, seq<V>) -> V, stack: seq<V>, calls: seq<Invocation<V>>)
    requires k < |args|
    ensures Exec([Op(Ldarg, IntOperand(k))] + rest, args, arity, returnsValue, invoke, stack, calls)
            == Exec(rest, args, arity, returnsValue, invoke, stack + [args[k]], calls)
  {
    assert ([Op(Ldarg, IntOperand(k))] + rest)[1..] == rest;
  }

  /** The stub forwards: called with `n` arguments followed by the delegate,
      it makes exactly one call, the delegate's `Invoke` on those `n`
      arguments in their original order, and returns what that call returns
      (nothing when `Invoke` is `void`). */
  lemma StubForwards<V>(n: nat, delType: TypeRef, args: seq<V>, returnsValue: bool, invoke: (V, seq<V>) -> V)
    requires |args| == n + 1
    ensures Exec(StubBody(n, delType), args, n, returnsValue, invoke, [], [])
            == Some(Outcome([Invocation(args[n], args[..n])],
                            if returnsValue then Some(invoke(args[n], args[..n])) else None))
  {
    var ld := Op(Ldarg, IntOperand(n));
    var tail := [Op(Callvirt, MethodOperand(InvokeMethod(delType))), Op(Ret, NoOperand)];
    assert StubBody(n, delType) == [ld] + (Loads(n) + tail);
    ExecLdarg(n, Loads(n) + tail, args, n, returnsValue, invoke, [], []);
    ExecLoads(n, tail, args, n, returnsValue, invoke, [] + [args[n]], []);
    assert [] + [args[n]] + args[..n] == [args[n]] + args[..n];
    ExecCallRet(delType, args, args[n], args[..n], returnsValue, invoke);
  }

  /** The stub `EmitDelegate` builds, with signature `(P1..Pn, delType)`
      and return type `ret`, run on `n` arguments and the delegate: it
      returns a value exactly when `ret` is not `void`, and that value is
      the result of the one `Invoke` call it makes. */
  lemma BuiltStubForwards<V>(params: seq<TypeRef>, ret: TypeRef, delType: TypeRef, args: seq<V>,
                             invoke: (V, seq<V>) -> V)
    requires |args| == |params| + 1
    ensures var stub := Stub(Signature(params + [delType], ret), StubBody(|params|, delType));
            var n := |stub.sig.paramTypes| - 1;
            Exec(stub.body, args, n, stub.sig.returnType != VoidType, invoke, [], [])
            == Some(Outcome([Invocation(args[n], args[..n])],
                            if ret != VoidType then Some(invoke(args[n], args[..n])) else None))
  {
    StubForwards(|params|, delType, args, ret != VoidType, invoke);
  }

  /** `callvirt Invoke; ret` on the delegate beneath its `n` arguments makes
      that one call and returns its result. */
  lemma ExecCallRet<V>(delType: TypeRef, args: seq<V>, target: V, arguments: seq<V>, returnsValue: bool,
                       invoke: (V, seq<V>) -> V)
    ensures Exec([Op(Callvirt, MethodOperand(InvokeMethod(delType))), Op(Ret, NoOperand)],
                 args, |arguments|, returnsValue, invoke, [target] + arguments, [])
            == Some(Outcome([Invocation(target, arguments)],
                            if returnsValue then Some(invoke(target, arguments)) else None))
  {
    var stack := [target] + arguments;
    assert stack[..0] == [] && stack[0] == target && stack[1..] == arguments;
    var pushed: seq<V> := if returnsValue then [invoke(target, arguments)] else [];
    assert [] + pushed == pushed && [] + [Invocation(target, arguments)] == [Invocation(target, arguments)];
  }
}
