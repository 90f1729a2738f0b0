/** AXPY with unified shared memory: `z[i] = x[i] * alpha + y[i]` computed
    into a freshly allocated, zero-filled output vector, and the host program
    that checks it on `x = 0, 1, ..., sz - 1` and `y = sz - 1, ..., 1, 0`. */
module Axpy {

  /** The kernel: the work-item with id `i` writes `z[i]`, once.
      `writes[k]` counts the writes to `z[k]`. */
  method AxpyKernel(alpha: int, x: array<int>, y: array<int>, z: array<int>)
    returns (ghost writes: seq<nat>)
    requires x.Length == y.Length == z.Length && z != x && z != y
    modifies z
    ensures forall i :: 0 <= i < z.Length ==> z[i] == x[i] * alpha + y[i]
    ensures |writes| == z.Length && forall k :: 0 <= k < |writes| ==> writes[k] == 1
  {
    writes := seq(z.Length, _ => 0);
    for i := 0 to z.Length
      invariant |writes| == z.Length
      invariant forall k :: 0 <= k < i ==> z[k] == x[k] * alpha + y[k] && writes[k] == 1
      invariant forall k :: i <= k < z.Length ==> writes[k] == 0
    {
      z[i] := x[i] * alpha + y[i];
      writes := writes[i := writes[i] + 1];
    }
  }

  /** `std::vector z(sz, 0)` in shared memory: `sz` zeros. */
  method AllocateZeroed(sz: nat) returns (z: array<int>)
    ensures fresh(z) && z.Length == sz
    ensures forall i :: 0 <= i < sz ==> z[i] == 0
  {
    z := new int[sz](_ => 0);
  }

  /** `axpy`: the inputs must have equal lengths; they are only read. The
      output has their length, starts out all zero and holds
      `x[i] * alpha + y[i]` at every index once the kernel has run. */
  method Axpy(alpha: int, x: array<int>, y: array<int>) returns (z: array<int>)
    requires x.Length == y.Length
    ensures fresh(z) && z.Length == x.Length
    ensures forall i :: 0 <= i < z.Length ==> z[i] == x[i] * alpha + y[i]
    ensures x[..] == old(x[..]) && y[..] == old(y[..])
  {
    var sz := x.Length;
    z := AllocateZeroed(sz);
    ghost var _ := AxpyKernel(alpha, x, y, z);
  }

  /** `std::iota(a.begin(), a.end(), start)`: `start, start + 1, ...`. */
  method Iota(a: array<int>, start: int)
    modifies a
    ensures forall k :: 0 <= k < a.Length ==> a[k] == start + k
  {
    for k := 0 to a.Length
      invariant forall j :: 0 <= j < k ==> a[j] == start + j
    {
      a[k] := start + k;
    }
  }

  /** `std::iota(a.rbegin(), a.rend(), start)`: the same run, filled from the
      back, so the last element is `start` and the first `start + len - 1`. */
  method IotaReversed(a: array<int>, start: int)
    modifies a
    ensures forall k :: 0 <= k < a.Length ==> a[k] == start + (a.Length - 1 - k)
  {
    var n := a.Length;
    for j := 0 to n
      invariant forall k :: n - j <= k < n ==> a[k] == start + (n - 1 - k)
    {
      a[n - 1 - j] := start + j;
    }
  }

  const Size: nat := 1024
  const Success: string := "Nice job!"
  const Mismatch: string := "Not quite there yet :("

  /** The host program: `x = 0 .. sz - 1`, `y = sz - 1 .. 0`, `alpha = 1`.
      Every `z[i]` is then `sz - 1`, so the check loop never breaks and the
      message stays the success message. */
  method AxpyProgram() returns (message: string)
    ensures message == Success
  {
    var sz := Size;
    var alpha := 1;
    var x := new int[sz](_ => 0);
    Iota(x, 0);
    var y := new int[sz](_ => 0);
    IotaReversed(y, 0);
    var z := Axpy(alpha, x, y);
    message := Success;
    var i := 0;
    while i < sz
      invariant 0 <= i <= sz && message == Success
    {
      if z[i] != sz - 1 {
        message := Mismatch;
        break;
      }
      i := i + 1;
    }
  }
}
