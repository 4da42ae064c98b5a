/** The C library's block operations on one array. */
module Memory {

  // memmove of n elements from position from down to position to.
  method MoveDown<T>(a: array<T>, to: nat, from: nat, n: nat)
    requires to <= from && from + n <= a.Length
    modifies a
    ensures a[to..to + n] == old(a[from..from + n])
    ensures forall k :: (0 <= k < to || to + n <= k < a.Length) ==> a[k] == old(a[k])
  {
    for i := 0 to n
      invariant a[to..to + i] == old(a[from..from + i])
      invariant forall k :: (0 <= k < to || to + i <= k < a.Length) ==> a[k] == old(a[k])
    {
      a[to + i] := a[from + i];
    }
  }

  // memcpy of data to position at.
  method CopyIn<T>(a: array<T>, at: nat, data: seq<T>)
    requires at + |data| <= a.Length
    modifies a
    ensures a[at..at + |data|] == data
    ensures forall k :: (0 <= k < at || at + |data| <= k < a.Length) ==> a[k] == old(a[k])
  {
    for i := 0 to |data|
      invariant a[at..at + i] == data[..i]
      invariant forall k :: (0 <= k < at || at + i <= k < a.Length) ==> a[k] == old(a[k])
    {
      a[at + i] := data[i];
    }
  }
}
