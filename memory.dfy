/**
 * The emulator's memory bank: 4096 cells read through `Array.prototype.slice`.
 */
module Memory {

  import opened Bits

  const Size: nat := 4096

  /** A memory bank holds exactly `Size` byte cells. */
  predicate WellFormed(content: seq<byte>) { |content| == Size }

  /** A fresh bank. The source leaves the cells unset; here they are zero. */
  function Blank(): (content: seq<byte>)
    ensures WellFormed(content)
    ensures forall a :: 0 <= a < Size ==> content[a] == 0
  {
    seq(Size, _ => 0)
  }

  /**
   * How `slice` turns a relative index into a position in a sequence of
   * length `len`: a negative index counts back from the end, and both ends
   * are clamped to `[0, len]`.
   */
  function SliceBound(rel: int, len: nat): (b: nat)
    ensures b <= len
  {
    if rel < 0 then (if len + rel < 0 then 0 else len + rel)
    else if rel > len then len
    else rel
  }

  /**
   * `content.slice(index, index + n)`: the cells from `index` on, at most
   * `n` of them, cut off at the end of the bank; never a failure.
   */
  function Read(content: seq<byte>, index: int, n: int): (r: seq<byte>)
    ensures 0 <= index && 0 <= n ==>
      |r| == (if index >= |content| then 0 else if n <= |content| - index then n else |content| - index)
    ensures 0 <= index && 0 <= n ==>
      forall k :: 0 <= k < |r| ==> r[k] == content[index + k]
    ensures (index >= |content| || n == 0) ==> r == []
  {
    var from := SliceBound(index, |content|);
    var to := SliceBound(index + n, |content|);
    if from < to then content[from..to] else []
  }
}
