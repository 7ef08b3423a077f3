/** `ReferenceStore<T>`: the process-wide arena of values of one type `T`,
    addressed by small integer ids. Ids are handed out in increasing order and
    never reissued; clearing an id overwrites its slot with `T`'s default value
    and keeps the slot. The backing array starts with 4 slots and doubles
    whenever it is full. */
module ReferenceStores {

  /** The capacity after `k` doublings: 4 * 2^k. */
  function Capacity(k: nat): (c: nat)
    ensures c >= 4
  {
    if k == 0 then 4 else 2 * Capacity(k - 1)
  }

  class ReferenceStore<T> {
    /** What `default(T)` is for this `T` (`null` for reference types). */
    const Default: T
    /** The static `array`. */
    var arr: array<T>
    /** The static `count`: ids `0 .. count-1` have been issued. */
    var count: nat
    /** How many times the array has doubled. */
    ghost var doublings: nat

    ghost predicate Valid()
      reads this
    {
      count <= arr.Length && arr.Length == Capacity(doublings)
    }

    /** The store as the class initialiser leaves it: four default slots. */
    constructor (dflt: T)
      ensures Valid() && fresh(arr)
      ensures Default == dflt && count == 0 && arr.Length == 4
      ensures forall k :: 0 <= k < arr.Length ==> arr[k] == dflt
    {
      Default := dflt;
      arr := new T[4](_ => dflt);
      count := 0;
      doublings := 0;
    }

    /** `Get(id)`: a plain array read; an id beyond the array throws. */
    function Get(id: nat): (v: T)
      reads this, arr
      requires id < arr.Length
      ensures v == arr[id]
    {
      arr[id]
    }

    /** `Store(t)`: grows the array (doubling it) only when it is full, then
        writes `t` at `count` and returns the old `count`. Every earlier slot
        keeps its value, so every earlier id still reads what was stored. */
    method Store(t: T) returns (id: nat)
      requires Valid()
      modifies this, arr
      ensures Valid()
      ensures id == old(count) && count == old(count) + 1
      ensures arr[..count] == old(arr[..count]) + [t]
      ensures old(count) < old(arr.Length) ==> arr == old(arr) && doublings == old(doublings)
      ensures old(count) == old(arr.Length) ==>
                fresh(arr) && arr.Length == 2 * old(arr.Length) && doublings == old(doublings) + 1
      ensures forall k :: count <= k < arr.Length ==>
                arr[k] == if k < old(arr.Length) then old(arr[k]) else Default
    {
      if count == arr.Length {
        var bigger := new T[arr.Length * 2](_ => Default);
        forall k | 0 <= k < arr.Length {
          bigger[k] := arr[k];
        }
        arr := bigger;
        doublings := doublings + 1;
      }
      arr[count] := t;
      id := count;
      count := count + 1;
    }

    /** `Clear(id)`: only slot `id` changes, to the default value; `count`
        and the capacity stay. An id beyond the array throws. */
    method Clear(id: nat)
      requires Valid() && id < arr.Length
      modifies arr
      ensures arr[id] == Default
      ensures forall k :: 0 <= k < arr.Length && k != id ==> arr[k] == old(arr[k])
    {
      arr[id] := Default;
    }
  }

  /** A client of the store: two stores and a clear. Both ids stay distinct,
      the first value survives the second store, and clearing the first id
      leaves the second value alone. */
  method StoreTwiceThenClear<T>(s: ReferenceStore<T>, a: T, b: T) returns (ia: nat, ib: nat)
    requires s.Valid()
    modifies s, s.arr
    ensures s.Valid()
    ensures ia < ib && ib == ia + 1 && ib < s.count
    ensures s.Get(ia) == s.Default && s.Get(ib) == b
  {
    ia := s.Store(a);
    ib := s.Store(b);
    assert s.arr[..s.count][ia] == a;
    assert s.arr[..s.count][ib] == b;
    s.Clear(ia);
  }
}
