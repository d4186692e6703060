/** Small things several modules need. */
module Common {

  datatype Option<T> = None | Some(value: T)

  function Min(a: nat, b: nat): nat { if a < b then a else b }

  function Power(b: nat, n: nat): nat {
    if n == 0 then 1 else b * Power(b, n - 1)
  }

  function InsertAt<T>(s: seq<T>, j: nat, d: T): (t: seq<T>)
    requires j <= |s|
    ensures |t| == |s| + 1
    ensures forall i {:trigger t[i]} :: 0 <= i < |t| ==> t[i] == if i < j then s[i] else if i == j then d else s[i - 1]
  {
    s[..j] + [d] + s[j..]
  }

  function RemoveAt<T>(s: seq<T>, j: nat): (t: seq<T>)
    requires j < |s|
    ensures |t| == |s| - 1
    ensures forall i {:trigger t[i]} :: 0 <= i < |t| ==> t[i] == s[if i < j then i else i + 1]
  {
    s[..j] + s[j + 1..]
  }

  ghost function Reversed<T>(s: seq<T>): (r: seq<T>)
    ensures |r| == |s| && forall i {:trigger r[i]} :: 0 <= i < |r| ==> r[i] == s[|s| - 1 - i]
  {
    seq(|s|, i requires 0 <= i < |s| => s[|s| - 1 - i])
  }
}
