/** Copying a run of values into an array. */
module Arrays {

  method CopyInto<T>(to: array<T>, at: nat, data: seq<T>)
    requires at + |data| <= to.Length
    modifies to
    ensures to[..] == old(to[..at]) + data + old(to[at + |data|..])
  {
    var index := 0;
    while index < |data|
      invariant 0 <= index <= |data|
      invariant forall k :: 0 <= k < to.Length ==>
        to[k] == if at <= k < at + index then data[k - at] else old(to[k])
    {
      to[at + index] := data[index];
      index := index + 1;
    }
  }
}
