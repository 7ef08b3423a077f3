/** Vocabulary shared by the cursor and the reference-binding helpers: a tiny
    abstract instruction set, instructions with an identity, nullable values
    and instruction predicates. */
module Instructions {

  /** `null` in the source becomes `None`. */
  datatype Option<T> = None | Some(value: T)

  /** A runtime type, known only by name. */
  datatype TypeRef = TypeRef(name: string)

  /** A host object bound into a stream: an identity plus its runtime type
      (what `GetType()` would return). */
  datatype HostObject = HostObject(identity: nat, runtimeType: TypeRef)

  /** The methods the emitted instructions call. */
  datatype MethodRef =
    | GetReferenceMethod                  // CecILCursor.GetReference(int)
    | StoreGetMethod(elemType: TypeRef)   // ReferenceStore<T>.Get(int)
    | InvokeMethod(delType: TypeRef)      // the Invoke method of a delegate type
    | GeneratedMethod(handle: HostObject) // a generated adapter stub

  datatype OpCode = Ldc_I4 | Ldarg | Call | Callvirt | Unbox_Any | Ret | OtherOp(name: string)

  datatype Operand =
    | NoOperand
    | IntOperand(n: int)
    | MethodOperand(m: MethodRef)
    | TypeOperand(t: TypeRef)
    | OtherOperand(tag: nat)

  /** What an instruction does, without its identity. */
  datatype Op = Op(opcode: OpCode, operand: Operand)

  /** An instruction object. Two instructions created separately are
      different objects even when they do the same thing; `uid` is that
      identity. */
  datatype Instr = Instr(uid: nat, op: Op)

  /** A search predicate; `Wildcard` is the source's `null` entry, which
      matches every instruction. */
  datatype Pred = Wildcard | Match(f: Instr -> bool)

  predicate Holds(p: Pred, x: Instr)
  {
    p.Wildcard? || p.f(x)
  }

  /** The identity of the instruction at `i`. */
  function UidAt(s: seq<Instr>, i: nat): nat
    requires i < |s|
  {
    s[i].uid
  }

  /** No instruction object occurs twice in a stream. */
  ghost predicate Distinct(s: seq<Instr>)
  {
    forall i, j :: 0 <= i < j < |s| ==> UidAt(s, i) != UidAt(s, j)
  }

  /** `Instrs.IndexOf(x)`, with the source's fall-back: a missing instruction
      (or `null`) reads as `Count`. */
  function IndexOrCount(s: seq<Instr>, x: Option<Instr>): (r: nat)
    ensures r <= |s|
    ensures r < |s| ==> x == Some(s[r])
    ensures r == |s| <==> (x.None? || x.value !in s)
  {
    IndexFrom(s, x, 0)
  }

  /** The first index at or after `k` holding `x`, or `|s|`. */
  function IndexFrom(s: seq<Instr>, x: Option<Instr>, k: nat): (r: nat)
    requires k <= |s|
    decreases |s| - k
    ensures k <= r <= |s|
    ensures r < |s| ==> x == Some(s[r])
    ensures r == |s| <==> (x.None? || x.value !in s[k..])
  {
    if k == |s| then |s|
    else if Some(s[k]) == x then k
    else
      assert s[k..] == [s[k]] + s[k + 1..];
      IndexFrom(s, x, k + 1)
  }

  /** In a stream without repeated instructions, the index of the instruction
      at `i` is `i`. */
  lemma IndexOfAt(s: seq<Instr>, i: nat)
    requires Distinct(s) && i < |s|
    ensures IndexOrCount(s, Some(s[i])) == i
  {
    var r := IndexOrCount(s, Some(s[i]));
    assert r < i ==> UidAt(s, r) != UidAt(s, i);
    assert i < r < |s| ==> UidAt(s, i) != UidAt(s, r);
  }

  /** Inserting an instruction object not yet in a stream keeps it free of
      repetitions. */
  lemma DistinctInsert(s: seq<Instr>, i: nat, x: Instr)
    requires Distinct(s) && i <= |s|
    requires forall y :: y in s ==> y.uid != x.uid
    ensures Distinct(s[..i] + [x] + s[i..])
  {
    var t := s[..i] + [x] + s[i..];
    forall a, b | 0 <= a < b < |t| ensures UidAt(t, a) != UidAt(t, b) {
      if a < i && b == i {
        assert t[a] == s[a];
      } else if a == i {
        assert t[b] == s[b - 1];
      } else if b < i {
        assert t[a] == s[a] && t[b] == s[b];
        assert UidAt(s, a) != UidAt(s, b);
      } else if a < i {
        assert t[a] == s[a] && t[b] == s[b - 1];
        assert UidAt(s, a) != UidAt(s, b - 1);
      } else {
        assert t[a] == s[a - 1] && t[b] == s[b - 1];
        assert UidAt(s, a - 1) != UidAt(s, b - 1);
      }
    }
  }

  /** Removing the instruction at `i` keeps the stream free of repetitions,
      and that instruction no longer occurs in it. */
  lemma DistinctRemove(s: seq<Instr>, i: nat)
    requires Distinct(s) && i < |s|
    ensures Distinct(s[..i] + s[i + 1..])
    ensures s[i] !in s[..i] + s[i + 1..]
  {
    var t := s[..i] + s[i + 1..];
    forall a, b | 0 <= a < b < |t| ensures UidAt(t, a) != UidAt(t, b) {
      if b < i {
        assert t[a] == s[a] && t[b] == s[b];
        assert UidAt(s, a) != UidAt(s, b);
      } else if a < i {
        assert t[a] == s[a] && t[b] == s[b + 1];
        assert UidAt(s, a) != UidAt(s, b + 1);
      } else {
        assert t[a] == s[a + 1] && t[b] == s[b + 1];
        assert UidAt(s, a + 1) != UidAt(s, b + 1);
      }
    }
    forall a | 0 <= a < |t| ensures t[a] != s[i] {
      if a < i {
        assert t[a] == s[a] && UidAt(s, a) != UidAt(s, i);
      } else {
        assert t[a] == s[a + 1] && UidAt(s, i) != UidAt(s, a + 1);
      }
    }
  }
}
