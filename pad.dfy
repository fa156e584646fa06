/** `padTo`: zero padding of a byte list up to a fixed size. */
module Padding {
  import opened Wrappers
  import opened Seqs

  /**
   * `padTo(data, targetSize)`: `data` followed by zeros up to `target`
   * elements; throws when `data` is already longer than `target`.
   */
  function PadTo(data: seq<int>, target: int): (r: Result<seq<int>>)
    ensures r.Ok? <==> |data| <= target
    ensures r.Err? ==> r.error == PaddingTooSmall
    ensures r.Ok? ==> |r.value| == target && r.value[..|data|] == data
    ensures r.Ok? ==> forall i :: |data| <= i < target ==> r.value[i] == 0
  {
    var paddingSize := target - |data|;
    if paddingSize < 0 then Err(PaddingTooSmall)
    else Ok(data + Zeros(paddingSize))
  }

  /** Data that already has the target size comes back unchanged. */
  lemma {:induction false} PadToExact(data: seq<int>)
    ensures PadTo(data, |data|) == Ok(data)
  {
    assert data + Zeros(0) == data;
  }
}
