/** The branch choice at the top of the model's forward pass and the attention
    mask extension of a cached decode step: ones over the cache, zero where the
    cache holds a never-attended position, then the current step's mask column. */
module DecodeStep {
  import opened Rows

  /** What the forward pass does with its inputs before calling the language model. */
  datatype Branch =
    | Fuse        // splice time-series features into the token embeddings
    | ExtendMask  // one decode step over a cache
    | Plain       // hand the inputs over unchanged

  /** The branch the forward pass takes: fusion needs embeddings to be computed here,
      time series and more than one input position; the decode step needs
      embeddings computed here, a cache, time series and exactly one position. */
  function Dispatch(hasInputsEmbeds: bool, hasTimeSeries: bool, hasCache: bool, inputLength: nat): (r: Branch)
    ensures r == Fuse <==> !hasInputsEmbeds && hasTimeSeries && inputLength != 1
    ensures r == ExtendMask <==> !hasInputsEmbeds && hasTimeSeries && hasCache && inputLength == 1
    ensures r == Plain <==> hasInputsEmbeds || !hasTimeSeries || (inputLength == 1 && !hasCache)
  {
    if hasInputsEmbeds then Plain
    else if hasTimeSeries && inputLength != 1 then Fuse
    else if hasCache && hasTimeSeries && inputLength == 1 then ExtendMask
    else Plain
  }

  /** A fresh ones mask of shape (B, past_length) with every flagged cache
      position that lies inside it set to 0. The flag of row b, position i
      stands for the test that finds a cached key which was never attended. */
  method ExtendedMask(unattended: seq<seq<bool>>, pastLength: nat) returns (ext: array2<int>)
    requires forall b :: 0 <= b < |unattended| ==> |unattended[b]| == pastLength
    ensures fresh(ext) && ext.Length0 == |unattended| && ext.Length1 == pastLength
    ensures forall b, i :: 0 <= b < ext.Length0 && 0 <= i < pastLength ==> ext[b, i] == if unattended[b][i] then 0 else 1
  {
    ext := new int[|unattended|, pastLength]((b, i) => 1);
    for b := 0 to |unattended|
      invariant forall b', i :: 0 <= b' < ext.Length0 && 0 <= i < pastLength ==>
        ext[b', i] == if b' < b && unattended[b'][i] then 0 else 1
    {
      for i := 0 to pastLength
        invariant forall b', i' :: 0 <= b' < ext.Length0 && 0 <= i' < pastLength ==>
          ext[b', i'] == if (b' < b || (b' == b && i' < i)) && unattended[b'][i'] then 0 else 1
      {
        if unattended[b][i] && i < ext.Length1 {
          ext[b, i] := 0;
        }
      }
    }
  }

  /** The sum of an extended-mask row is the number of attended cache positions. */
  lemma {:induction false} ExtendedRowSum(r: seq<int>, flags: seq<bool>)
    requires |r| == |flags|
    requires forall i :: 0 <= i < |r| ==> r[i] == if flags[i] then 0 else 1
    ensures Sum(r) == |flags| - CountTrue(flags)
  {
    if r != [] {
      var n := |r| - 1;
      ExtendedRowSum(r[..n], flags[..n]);
      assert flags == flags[..n] + [flags[n]];
      CountTrueAppend(flags[..n], [flags[n]]);
    }
  }

  /** The new mask is the extended mask followed by the last
      column of the old mask, and the position id of the new token is the sum
      of its row minus one, i.e. the number of attended cache positions plus
      the current mask bit, minus one. */
  method DecodeMask(mask: seq<seq<int>>, unattended: seq<seq<bool>>, pastLength: nat) returns (newMask: seq<seq<int>>, positionIds: seq<int>)
    requires |unattended| == |mask|
    requires forall b :: 0 <= b < |unattended| ==> |unattended[b]| == pastLength
    ensures |newMask| == |mask| && |positionIds| == |mask|
    ensures forall b :: 0 <= b < |mask| ==> |newMask[b]| == pastLength + (if |mask[b]| >= 1 then 1 else 0)
    ensures forall b, i :: 0 <= b < |mask| && 0 <= i < pastLength ==> newMask[b][i] == if unattended[b][i] then 0 else 1
    ensures forall b :: 0 <= b < |mask| && |mask[b]| >= 1 ==> newMask[b][pastLength] == mask[b][|mask[b]| - 1]
    ensures forall b :: 0 <= b < |mask| ==>
      positionIds[b] == (pastLength - CountTrue(unattended[b])) + (if |mask[b]| >= 1 then mask[b][|mask[b]| - 1] else 0) - 1
  {
    var ext := ExtendedMask(unattended, pastLength);
    newMask := seq(|mask|, b requires 0 <= b < |mask| reads ext => Row(ext, b) + PySliceFrom(mask[b], -1));
    positionIds := seq(|mask|, b requires 0 <= b < |mask| => Sum(newMask[b]) - 1);
    forall b | 0 <= b < |mask|
      ensures positionIds[b] == (pastLength - CountTrue(unattended[b])) + (if |mask[b]| >= 1 then mask[b][|mask[b]| - 1] else 0) - 1
    {
      ExtendedRowSum(Row(ext, b), unattended[b]);
      SumAppend(Row(ext, b), PySliceFrom(mask[b], -1));
      if |mask[b]| >= 1 {
        assert PySliceFrom(mask[b], -1) == [mask[b][|mask[b]| - 1]];
      } else {
        assert PySliceFrom(mask[b], -1) == [];
      }
    }
  }
}
