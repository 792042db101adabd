/** pkg/utils/utils.go. */
module Utils {

  /** `Insert[T]`: an index outside `0..len(slice)` returns the slice as it
      is; otherwise the slice grows by one (`append`), the elements from
      `index` on move one place right (`copy`, which behaves as a memmove),
      and `value` is written at `index`. */
  method Insert<T>(slice: seq<T>, index: int, value: T) returns (r: seq<T>)
    ensures index < 0 || index > |slice| ==> r == slice
    ensures 0 <= index <= |slice| ==> r == slice[..index] + [value] + slice[index..]
    ensures 0 <= index <= |slice| ==>
              |r| == |slice| + 1 && r[index] == value
              && (forall i :: 0 <= i < index ==> r[i] == slice[i])
              && (forall i :: index <= i < |slice| ==> r[i + 1] == slice[i])
    ensures index == |slice| ==> r == slice + [value]
  {
    if index < 0 || index > |slice| {
      return slice;
    }
    var n := |slice|;
    var a := new T[n + 1]((i: nat) => if i < n then slice[i] else value);
    var j := n;
    while j > index
      invariant index <= j <= n
      invariant forall i :: 0 <= i <= j ==> a[i] == if i < n then slice[i] else value
      invariant forall i :: j < i <= n ==> a[i] == slice[i - 1]
    {
      a[j] := a[j - 1];
      j := j - 1;
    }
    a[index] := value;
    r := a[..];
    assert forall i :: index <= i < n ==> r[i + 1] == slice[i];
    Spliced(slice, index, value, r);
  }

  /** A sequence that agrees with `slice` before `index`, holds `value` at
      `index` and the rest of `slice` shifted one place right is `slice`
      with `value` spliced in. */
  lemma Spliced<T>(slice: seq<T>, index: nat, value: T, r: seq<T>)
    requires index <= |slice| && |r| == |slice| + 1 && r[index] == value
    requires forall i :: 0 <= i < index ==> r[i] == slice[i]
    requires forall i :: index <= i < |slice| ==> r[i + 1] == slice[i]
    ensures r == slice[..index] + [value] + slice[index..]
    ensures index == |slice| ==> r == slice + [value]
  {
    var s := slice[..index] + [value] + slice[index..];
    forall i | 0 <= i < |r|
      ensures r[i] == s[i]
    {
      if i > index {
        assert r[(i - 1) + 1] == slice[i - 1];
      }
    }
  }
}
