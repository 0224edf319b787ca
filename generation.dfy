/** Input preparation for generation: which inputs the next
    generation step feeds the model. With a cache, the token ids and the mask
    are cut down to the part the cache has not processed yet, position ids are
    recomputed from the mask, and given embeddings are only used without a
    cache. The cache itself is reduced to the two lengths it reports. */
module Generation {
  import opened Wrappers
  import opened Rows

  /** What the cache reports: the entries it holds, the entries it has ever
      seen, and its truth value. A legacy
      tuple cache reports the same length twice. */
  datatype CacheInfo = CacheInfo(cacheLength: nat, pastLength: nat, truthy: bool)

  /** The prepared inputs: either ids or embeddings, plus position ids, the cache
      and the attention mask. */
  datatype ModelInputs = ModelInputs(
    inputIds: Option<seq<seq<int>>>,
    inputsEmbeds: Option<seq<seq<int>>>,
    positionIds: Option<seq<seq<int>>>,
    cache: Option<CacheInfo>,
    attentionMask: Option<seq<seq<int>>>)

  /** A two-dimensional tensor of B >= 1 rows of equal length. */
  ghost predicate IsMatrix(xs: seq<seq<int>>)
  {
    |xs| >= 1 && forall b :: 0 <= b < |xs| ==> |xs[b]| == |xs[0]|
  }

  /** Number of columns of a matrix. */
  function Cols(xs: seq<seq<int>>): nat
    requires |xs| >= 1
  {
    |xs[0]|
  }

  /** Every row sliced from column start on, by Python's slice rules. */
  function SliceColumns(xs: seq<seq<int>>, start: int): (r: seq<seq<int>>)
    ensures |r| == |xs|
  {
    seq(|xs|, b requires 0 <= b < |xs| => PySliceFrom(xs[b], start))
  }

  /** Slicing every row of a matrix from the same start keeps it a matrix,
      each row a suffix of the original one. */
  lemma SliceColumnsFacts(xs: seq<seq<int>>, start: int)
    requires IsMatrix(xs)
    ensures IsMatrix(SliceColumns(xs, start))
    ensures forall b :: 0 <= b < |xs| ==> SliceColumns(xs, start)[b] == xs[b][Cols(xs) - Cols(SliceColumns(xs, start))..]
  {
  }

  /** Some row of the ids holds the token. */
  predicate ContainsToken(ids: seq<seq<int>>, tok: int)
  {
    exists b :: 0 <= b < |ids| && tok in ids[b]
  }

  /** Keep only the ids the cache has not processed. The three rules are tried
      in order: a mask longer than the ids keeps as many last ids as the mask
      is longer than the history, a history shorter than the ids drops that
      many first ids, and otherwise a placeholder in the ids keeps only the
      last id. */
  function KeepUnprocessed(ids: seq<seq<int>>, mask: Option<seq<seq<int>>>, pastLength: nat, tok: int): (r: seq<seq<int>>)
    requires IsMatrix(ids) && (mask.Some? ==> IsMatrix(mask.value))
    ensures IsMatrix(r) && |r| == |ids| && Cols(r) <= Cols(ids)
    ensures forall b :: 0 <= b < |ids| ==> r[b] == ids[b][Cols(ids) - Cols(r)..]
  {
    var n := Cols(ids);
    var start :=
      if mask.Some? && Cols(mask.value) > n then -(Cols(mask.value) - pastLength)
      else if pastLength < n then pastLength
      else if ContainsToken(ids, tok) then n - 1
      else 0;
    SliceColumnsFacts(ids, start);
    SliceColumns(ids, start)
  }

  /** The first rule: with a mask longer than the ids, the kept ids are the
      last k ones, k the mask length minus the history length, when that many
      exist; all of them when k is 0 (a slice from minus zero is the whole row)
      or exceeds the width; and when k is negative, the ids after the first -k. */
  lemma KeepUnprocessedMaskLonger(ids: seq<seq<int>>, mask: seq<seq<int>>, pastLength: nat, tok: int)
    requires IsMatrix(ids) && IsMatrix(mask) && Cols(mask) > Cols(ids)
    ensures var r := KeepUnprocessed(ids, Some(mask), pastLength, tok);
            var k := Cols(mask) - pastLength;
            (0 < k <= Cols(ids) ==> Cols(r) == k) &&
            (k == 0 || k > Cols(ids) ==> r == ids) &&
            (k < 0 ==> Cols(r) == if -k <= Cols(ids) then Cols(ids) + k else 0)
  {
    var r := KeepUnprocessed(ids, Some(mask), pastLength, tok);
    var k := Cols(mask) - pastLength;
    if k == 0 || k > Cols(ids) {
      assert forall b :: 0 <= b < |ids| ==> r[b] == ids[b];
    }
  }

  /** The second rule: when fewer ids were seen than are given, the first
      history-length ids are the processed history and the rest are kept. */
  lemma KeepUnprocessedDropsHistory(ids: seq<seq<int>>, mask: Option<seq<seq<int>>>, pastLength: nat, tok: int)
    requires IsMatrix(ids) && (mask.Some? ==> IsMatrix(mask.value))
    requires !(mask.Some? && Cols(mask.value) > Cols(ids)) && pastLength < Cols(ids)
    ensures var r := KeepUnprocessed(ids, mask, pastLength, tok);
            Cols(r) == Cols(ids) - pastLength &&
            forall b :: 0 <= b < |ids| ==> ids[b][..pastLength] + r[b] == ids[b]
  {
    var r := KeepUnprocessed(ids, mask, pastLength, tok);
    forall b | 0 <= b < |ids|
      ensures ids[b][..pastLength] + r[b] == ids[b]
    {
      assert r[b] == ids[b][pastLength..];
    }
  }

  /** The third rule: when the cache has seen at least as many ids as given,
      a placeholder among them leaves only the last id of each row, and
      without one every id is kept. */
  lemma KeepUnprocessedLastId(ids: seq<seq<int>>, mask: Option<seq<seq<int>>>, pastLength: nat, tok: int)
    requires IsMatrix(ids) && (mask.Some? ==> IsMatrix(mask.value))
    requires !(mask.Some? && Cols(mask.value) > Cols(ids)) && pastLength >= Cols(ids)
    ensures var r := KeepUnprocessed(ids, mask, pastLength, tok);
            (ContainsToken(ids, tok) ==> forall b :: 0 <= b < |ids| ==> r[b] == [ids[b][Cols(ids) - 1]]) &&
            (!ContainsToken(ids, tok) ==> r == ids)
  {
    var r := KeepUnprocessed(ids, mask, pastLength, tok);
    if !ContainsToken(ids, tok) {
      assert forall b :: 0 <= b < |ids| ==> r[b] == ids[b];
    }
  }

  /** The ids and the mask after trimming against the cache.
      Without a cache both are returned unchanged. */
  function TrimToCache(ids: seq<seq<int>>, mask: Option<seq<seq<int>>>, cache: Option<CacheInfo>, tok: int): (r: (seq<seq<int>>, Option<seq<seq<int>>>))
    requires IsMatrix(ids) && (mask.Some? ==> IsMatrix(mask.value))
    ensures IsMatrix(r.0) && |r.0| == |ids|
    ensures r.1.Some? <==> mask.Some?
    ensures r.1.Some? ==> IsMatrix(r.1.value) && |r.1.value| == |mask.value|
    ensures cache.None? ==> r == (ids, mask)
  {
    if cache.None? then (ids, mask)
    else
      var c := cache.value;
      var kept := KeepUnprocessed(ids, mask, c.pastLength, tok);
      var cut :=
        if c.cacheLength < c.pastLength && mask.Some? then
          SliceColumnsFacts(mask.value, -(c.cacheLength + Cols(kept)));
          Some(SliceColumns(mask.value, -(c.cacheLength + Cols(kept))))
        else mask;
      (kept, cut)
  }

  /** A cache that has seen more entries than it holds cuts the mask to its
      last cache-length + len columns (all of them when that is 0, since a
      slice from minus zero is the whole row), each row a suffix of the old
      one; otherwise
      the mask is untouched. */
  lemma TrimToCacheMask(ids: seq<seq<int>>, mask: seq<seq<int>>, cache: CacheInfo, tok: int)
    requires IsMatrix(ids) && IsMatrix(mask)
    ensures var (kept, cut) := TrimToCache(ids, Some(mask), Some(cache), tok);
            cut.Some? &&
            (cache.cacheLength < cache.pastLength ==>
               Cols(cut.value) == (if 0 < cache.cacheLength + Cols(kept) <= Cols(mask) then cache.cacheLength + Cols(kept) else Cols(mask)) &&
               forall b :: 0 <= b < |mask| ==> cut.value[b] == mask[b][Cols(mask) - Cols(cut.value)..]) &&
            (cache.cacheLength >= cache.pastLength ==> cut == Some(mask))
  {
  }

  /** Without given position ids, a mask yields ids by the
      cumulative-sum rule, restricted to the last len columns when the
      cache is truthy. Given position ids are passed on untouched. */
  function GenerationPositionIds(mask: Option<seq<seq<int>>>, given: Option<seq<seq<int>>>, cache: Option<CacheInfo>, len: nat): (r: Option<seq<seq<int>>>)
    requires mask.Some? ==> IsMatrix(mask.value)
    ensures given.Some? ==> r == given
    ensures given.None? ==> (r.Some? <==> mask.Some?)
  {
    if mask.Some? && given.None? then
      var all := seq(|mask.value|, b requires 0 <= b < |mask.value| => PositionIds(mask.value[b]));
      if cache.Some? && cache.value.truthy then Some(SliceColumns(all, -(len as int))) else Some(all)
    else given
  }

  /** With a truthy cache and 1 <= len <= mask width, the position ids are the
      cumulative-sum ids of the last len mask columns; for len == 0 the slice
      from minus zero keeps them all. */
  lemma PositionIdsOfLastColumns(mask: seq<seq<int>>, cache: CacheInfo, len: nat)
    requires IsMatrix(mask) && cache.truthy
    ensures var r := GenerationPositionIds(Some(mask), None, Some(cache), len).value;
            |r| == |mask| &&
            (1 <= len <= Cols(mask) ==>
               forall b, k :: 0 <= b < |mask| && 0 <= k < len ==>
                 |r[b]| == len && r[b][k] == PositionIds(mask[b])[Cols(mask) - len + k]) &&
            (len == 0 ==> forall b :: 0 <= b < |mask| ==> r[b] == PositionIds(mask[b]))
  {
  }

  /** The whole of input preparation for generation. */
  function PrepareInputs(ids: seq<seq<int>>, cache: Option<CacheInfo>, embeds: Option<seq<seq<int>>>,
                         mask: Option<seq<seq<int>>>, positionIds: Option<seq<seq<int>>>, tok: int): (r: ModelInputs)
    requires IsMatrix(ids) && (mask.Some? ==> IsMatrix(mask.value))
    ensures r.cache == cache
    ensures r.inputsEmbeds.Some? <==> embeds.Some? && cache.None?
    ensures r.inputsEmbeds.Some? ==> r.inputsEmbeds == embeds && r.inputIds.None?
    ensures r.inputsEmbeds.None? ==> r.inputIds.Some? && |r.inputIds.value| == |ids|
    ensures r.inputIds.Some? ==> forall b :: 0 <= b < |ids| ==>
      |r.inputIds.value[b]| <= |ids[b]| && r.inputIds.value[b] == ids[b][|ids[b]| - |r.inputIds.value[b]|..]
    ensures r.attentionMask.Some? <==> mask.Some?
    ensures cache.None? ==> r.attentionMask == mask && (r.inputIds.Some? ==> r.inputIds.value == ids)
    ensures positionIds.Some? ==> r.positionIds == positionIds
    ensures positionIds.None? ==> (r.positionIds.Some? <==> mask.Some?)
  {
    var (kept, cut) := TrimToCache(ids, mask, cache, tok);
    var pos := GenerationPositionIds(cut, positionIds, cache, Cols(kept));
    if embeds.Some? && cache.None? then ModelInputs(None, embeds, pos, cache, cut)
    else ModelInputs(Some(kept), None, pos, cache, cut)
  }
}
