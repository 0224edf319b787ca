/** Sequence fusion as a whole: the imperative
    fusion of token embeddings with time-series patch features into one padded
    batch, stage by stage on two-dimensional arrays. An embedding vector is
    modelled by a single integer, with 0 standing for the zero vector. */
module Merge {
  import opened Wrappers
  import opened Rows
  import opened Fusion
  import opened Slots

  /** The four tensors fusion returns. */
  datatype Fused = Fused(embedding: array2<int>, attentionMask: array2<int>, labels: Option<array2<int>>, positionIds: array2<int>)

  /** The input error raised when the slots do not match the features given. */
  datatype MergeError = PlaceholderMismatch(placeholders: nat, instances: nat)

  /** Some pad-token column k < j of row b is scattered to fused column c. */
  ghost predicate PadHitBefore(ids: seq<seq<int>>, cfg: Config, patches: nat, b: nat, c: int, j: nat)
    requires IsBatch(ids) && patches >= 1 && b < |ids| && j <= Width(ids)
  {
    exists k :: 0 <= k < j && ids[b][k] == cfg.padToken && Destinations(ids, cfg, patches, b)[k] == c
  }

  /** Extending the scanned columns by column j adds j's destination when j is a pad token. */
  lemma PadHitBeforeStep(ids: seq<seq<int>>, cfg: Config, patches: nat, b: nat, j: nat)
    requires IsBatch(ids) && patches >= 1 && b < |ids| && j < Width(ids)
    ensures forall c :: PadHitBefore(ids, cfg, patches, b, c, j + 1) <==>
      PadHitBefore(ids, cfg, patches, b, c, j) || (ids[b][j] == cfg.padToken && Destinations(ids, cfg, patches, b)[j] == c)
  {
    var d := Destinations(ids, cfg, patches, b);
    forall c
      ensures PadHitBefore(ids, cfg, patches, b, c, j + 1) <==> PadHitBefore(ids, cfg, patches, b, c, j) || (ids[b][j] == cfg.padToken && d[j] == c)
    {
      if PadHitBefore(ids, cfg, patches, b, c, j) {
        var k :| 0 <= k < j && ids[b][k] == cfg.padToken && d[k] == c;
        assert 0 <= k < j + 1 && ids[b][k] == cfg.padToken && d[k] == c;
      }
      if ids[b][j] == cfg.padToken && d[j] == c {
        assert 0 <= j < j + 1 && ids[b][j] == cfg.padToken && d[j] == c;
      }
      if PadHitBefore(ids, cfg, patches, b, c, j + 1) {
        var k :| 0 <= k < j + 1 && ids[b][k] == cfg.padToken && d[k] == c;
        if k < j {
          assert 0 <= k < j && ids[b][k] == cfg.padToken && d[k] == c;
        }
      }
    }
  }

  /** Some pad-token column of row b is scattered to fused column c, so the
      final pad step zeroes the embedding there. */
  ghost predicate PadHit(ids: seq<seq<int>>, cfg: Config, patches: nat, b: nat, c: int)
    requires IsBatch(ids) && patches >= 1 && b < |ids|
  {
    PadHitBefore(ids, cfg, patches, b, c, Width(ids))
  }

  /** Some kept position before j is sent to column c. */
  ghost predicate SentBefore(keep: seq<bool>, d: seq<int>, c: int, j: nat)
    requires j <= |keep| == |d|
  {
    exists k :: 0 <= k < j && keep[k] && d[k] == c
  }

  /** Row b of dst receives value k at column d[k] for every kept k, with d
      strictly increasing. */
  method ScatterInto(dst: array2<int>, b: nat, vals: seq<int>, keep: seq<bool>, d: seq<int>)
    requires b < dst.Length0 && |vals| == |keep| == |d|
    requires forall i, j :: 0 <= i < j < |d| ==> d[i] < d[j]
    requires forall j :: 0 <= j < |d| ==> 0 <= d[j] < dst.Length1
    modifies dst
    ensures forall k :: 0 <= k < |d| && keep[k] ==> dst[b, d[k]] == vals[k]
    ensures forall b', c :: 0 <= b' < dst.Length0 && 0 <= c < dst.Length1 && (b' != b || !SentBefore(keep, d, c, |d|)) ==>
      dst[b', c] == old(dst[b', c])
  {
    for j := 0 to |d|
      invariant forall k :: 0 <= k < j && keep[k] ==> dst[b, d[k]] == vals[k]
      invariant forall b', c :: 0 <= b' < dst.Length0 && 0 <= c < dst.Length1 && (b' != b || !SentBefore(keep, d, c, j)) ==>
        dst[b', c] == old(dst[b', c])
    {
      if keep[j] {
        dst[b, d[j]] := vals[j];
      }
    }
  }

  /** One row of the text scatter: every non-placeholder column
      j of row b is copied to its destination, nothing else changes. */
  method ScatterRow(dst: array2<int>, src: seq<seq<int>>, ids: seq<seq<int>>, cfg: Config, patches: nat, b: nat)
    requires IsBatch(ids) && patches >= 1 && SameShape(src, ids) && b < |ids|
    requires dst.Length0 == |ids| && dst.Length1 == FusedLength(ids, cfg, patches)
    modifies dst
    ensures forall j :: 0 <= j < Width(ids) && ids[b][j] != cfg.timeSeriesToken ==>
      dst[b, Destinations(ids, cfg, patches, b)[j]] == src[b][j]
    ensures forall b', c :: 0 <= b' < dst.Length0 && 0 <= c < dst.Length1 && (b' != b || !IsTextDest(ids, cfg, patches, b, c)) ==>
      dst[b', c] == old(dst[b', c])
  {
    var d := Destinations(ids, cfg, patches, b);
    var keep := seq(Width(ids), j requires 0 <= j < Width(ids) => ids[b][j] != cfg.timeSeriesToken);
    ScatterInto(dst, b, src[b], keep, d);
    forall c | SentBefore(keep, d, c, |d|)
      ensures IsTextDest(ids, cfg, patches, b, c)
    {
      var k :| 0 <= k < |d| && keep[k] && d[k] == c;
    }
  }

  /** The text scatter: every non-placeholder column of every row is copied
      from src to its destination in dst. */
  method ScatterText(dst: array2<int>, src: seq<seq<int>>, ids: seq<seq<int>>, cfg: Config, patches: nat)
    requires IsBatch(ids) && patches >= 1 && SameShape(src, ids)
    requires dst.Length0 == |ids| && dst.Length1 == FusedLength(ids, cfg, patches)
    modifies dst
    ensures forall b, j :: 0 <= b < |ids| && 0 <= j < Width(ids) && ids[b][j] != cfg.timeSeriesToken ==>
      dst[b, Destinations(ids, cfg, patches, b)[j]] == src[b][j]
    ensures forall b, c :: 0 <= b < |ids| && 0 <= c < dst.Length1 && !IsTextDest(ids, cfg, patches, b, c) ==>
      dst[b, c] == old(dst[b, c])
  {
    for b := 0 to |ids|
      invariant forall b', j :: 0 <= b' < b && 0 <= j < Width(ids) && ids[b'][j] != cfg.timeSeriesToken ==>
        dst[b', Destinations(ids, cfg, patches, b')[j]] == src[b'][j]
      invariant forall b', c :: 0 <= b' < |ids| && 0 <= c < dst.Length1 && (b' >= b || !IsTextDest(ids, cfg, patches, b', c)) ==>
        dst[b', c] == old(dst[b', c])
    {
      ScatterRow(dst, src, ids, cfg, patches, b);
    }
  }

  /** One row of the text clearing: false at every text destination of row b. */
  method ClearTextRow(ts: array2<bool>, ids: seq<seq<int>>, cfg: Config, patches: nat, b: nat)
    requires IsBatch(ids) && patches >= 1 && b < |ids|
    requires ts.Length0 == |ids| && ts.Length1 == FusedLength(ids, cfg, patches)
    modifies ts
    ensures forall c :: 0 <= c < ts.Length1 ==> ts[b, c] == (old(ts[b, c]) && NonTextRow(ids, cfg, patches, b)[c])
    ensures forall b', c :: 0 <= b' < ts.Length0 && b' != b && 0 <= c < ts.Length1 ==> ts[b', c] == old(ts[b', c])
  {
    var d := Destinations(ids, cfg, patches, b);
    for j := 0 to Width(ids)
      invariant forall c :: 0 <= c < ts.Length1 ==> ts[b, c] == (old(ts[b, c]) && !TextDestBefore(ids, cfg, patches, b, c, j))
      invariant forall b', c :: 0 <= b' < ts.Length0 && b' != b && 0 <= c < ts.Length1 ==> ts[b', c] == old(ts[b', c])
    {
      TextDestBeforeStep(ids, cfg, patches, b, j);
      if ids[b][j] != cfg.timeSeriesToken {
        ts[b, d[j]] := false;
      }
    }
  }

  /** A fresh all-true mask with every text destination cleared. */
  method NonTextMask(ids: seq<seq<int>>, cfg: Config, patches: nat) returns (ts: array2<bool>)
    requires IsBatch(ids) && patches >= 1
    ensures fresh(ts) && ts.Length0 == |ids| && ts.Length1 == FusedLength(ids, cfg, patches)
    ensures forall b, c :: 0 <= b < |ids| && 0 <= c < ts.Length1 ==> ts[b, c] == NonTextRow(ids, cfg, patches, b)[c]
  {
    ts := new bool[|ids|, FusedLength(ids, cfg, patches)]((b, c) => true);
    for b := 0 to |ids|
      invariant forall b', c :: 0 <= b' < |ids| && 0 <= c < ts.Length1 ==>
        ts[b', c] == (b' >= b || NonTextRow(ids, cfg, patches, b')[c])
    {
      ClearTextRow(ts, ids, cfg, patches, b);
    }
  }

  /** The pad-offset drop on row b: keep a true entry only when at least `off` true
      entries precede it (the running count is the cumulative sum). */
  method DropPadRow(ts: array2<bool>, b: nat, off: int)
    requires b < ts.Length0
    modifies ts
    ensures forall c :: 0 <= c < ts.Length1 ==> ts[b, c] == SelectAfter(old(Row(ts, b)), off)[c]
    ensures forall b', c :: 0 <= b' < ts.Length0 && b' != b && 0 <= c < ts.Length1 ==> ts[b', c] == old(ts[b', c])
  {
    ghost var row := Row(ts, b);
    var count := 0;
    for c := 0 to ts.Length1
      invariant count == CountTrue(row[..c])
      invariant forall c' :: 0 <= c' < c ==> ts[b, c'] == SelectAfter(row, off)[c']
      invariant forall c' :: c <= c' < ts.Length1 ==> ts[b, c'] == row[c']
      invariant forall b', c' :: 0 <= b' < ts.Length0 && b' != b && 0 <= c' < ts.Length1 ==> ts[b', c'] == old(ts[b', c'])
    {
      CountTruePrefixStep(row, c);
      if ts[b, c] {
        count := count + 1;
      }
      ts[b, c] := ts[b, c] && count - 1 >= off;
    }
  }

  /** The slot mask after the pad-offset drop: the slot matrix. */
  method TimeSeriesSlots(ids: seq<seq<int>>, cfg: Config, patches: nat) returns (ts: array2<bool>)
    requires IsBatch(ids) && patches >= 1
    ensures fresh(ts) && ts.Length0 == |ids| && ts.Length1 == FusedLength(ids, cfg, patches)
    ensures forall b, c :: 0 <= b < |ids| && 0 <= c < ts.Length1 ==> ts[b, c] == SlotRow(ids, cfg, patches, b)[c]
  {
    ts := NonTextMask(ids, cfg, patches);
    for b := 0 to |ids|
      invariant forall b', c :: 0 <= b' < |ids| && 0 <= c < ts.Length1 ==>
        ts[b', c] == if b' < b then SlotRow(ids, cfg, patches, b')[c] else NonTextRow(ids, cfg, patches, b')[c]
    {
      assert Row(ts, b) == NonTextRow(ids, cfg, patches, b);
      DropPadRow(ts, b, PadOffset(ids, cfg, patches, b));
    }
  }

  /** The number of slots in the whole batch. */
  method CountSlots(ts: array2<bool>, ghost slots: seq<seq<bool>>) returns (n: nat)
    requires |slots| == ts.Length0 && forall b :: 0 <= b < |slots| ==> |slots[b]| == ts.Length1
    requires forall b, c :: 0 <= b < ts.Length0 && 0 <= c < ts.Length1 ==> ts[b, c] == slots[b][c]
    ensures n == SlotsBefore(slots, |slots|)
  {
    n := 0;
    for b := 0 to ts.Length0
      invariant n == SlotsBefore(slots, b)
    {
      for c := 0 to ts.Length1
        invariant n == SlotsBefore(slots, b) + CountTrue(slots[b][..c])
      {
        CountTruePrefixStep(slots[b], c);
        if ts[b, c] {
          n := n + 1;
        }
      }
      assert slots[b][..ts.Length1] == slots[b];
    }
  }

  /** One row of the feature fill: the slots of row b, left to right, take the
      flattened features from start, the number of slots in earlier rows, on;
      next is where row b + 1 starts. */
  method FillRow(emb: array2<int>, ts: array2<bool>, flat: seq<int>, ghost slots: seq<seq<bool>>, b: nat, start: nat) returns (next: nat)
    requires emb.Length0 == ts.Length0 && emb.Length1 == ts.Length1 && b < ts.Length0
    requires |slots| == ts.Length0 && forall b' :: 0 <= b' < |slots| ==> |slots[b']| == ts.Length1
    requires forall b', c :: 0 <= b' < ts.Length0 && 0 <= c < ts.Length1 ==> ts[b', c] == slots[b'][c]
    requires |flat| == SlotsBefore(slots, |slots|) && start == SlotsBefore(slots, b)
    modifies emb
    ensures forall c :: 0 <= c < emb.Length1 && ts[b, c] ==>
      Rank(slots, b, c) < |flat| && emb[b, c] == flat[Rank(slots, b, c)]
    ensures forall b', c :: 0 <= b' < emb.Length0 && 0 <= c < emb.Length1 && (b' != b || !ts[b', c]) ==>
      emb[b', c] == old(emb[b', c])
    ensures next == SlotsBefore(slots, b + 1)
  {
    var k := start;
    for c := 0 to ts.Length1
      invariant k == Rank(slots, b, c)
      invariant forall c' :: 0 <= c' < c && ts[b, c'] ==> Rank(slots, b, c') < |flat| && emb[b, c'] == flat[Rank(slots, b, c')]
      invariant forall b', c' :: 0 <= b' < emb.Length0 && 0 <= c' < emb.Length1 && (b' != b || c' >= c || !ts[b', c']) ==>
        emb[b', c'] == old(emb[b', c'])
    {
      CountTruePrefixStep(slots[b], c);
      if ts[b, c] {
        RankOrder(slots, b, c, b, c + 1);
        emb[b, c] := flat[k];
        k := k + 1;
      }
    }
    assert slots[b][..ts.Length1] == slots[b];
    next := k;
  }

  /** The feature fill: the flattened features are written into the slots in
      row-major order, so slot (b, c) receives feature number Rank(b, c). */
  method FillFeatures(emb: array2<int>, ts: array2<bool>, flat: seq<int>, ghost slots: seq<seq<bool>>)
    requires emb.Length0 == ts.Length0 && emb.Length1 == ts.Length1
    requires |slots| == ts.Length0 && forall b :: 0 <= b < |slots| ==> |slots[b]| == ts.Length1
    requires forall b, c :: 0 <= b < ts.Length0 && 0 <= c < ts.Length1 ==> ts[b, c] == slots[b][c]
    requires |flat| == SlotsBefore(slots, |slots|)
    modifies emb
    ensures forall b, c :: 0 <= b < emb.Length0 && 0 <= c < emb.Length1 && ts[b, c] ==>
      Rank(slots, b, c) < |flat| && emb[b, c] == flat[Rank(slots, b, c)]
    ensures forall b, c :: 0 <= b < emb.Length0 && 0 <= c < emb.Length1 && !ts[b, c] ==> emb[b, c] == old(emb[b, c])
  {
    var k := 0;
    for b := 0 to ts.Length0
      invariant k == SlotsBefore(slots, b)
      invariant forall b', c :: 0 <= b' < b && 0 <= c < emb.Length1 && ts[b', c] ==>
        Rank(slots, b', c) < |flat| && emb[b', c] == flat[Rank(slots, b', c)]
      invariant forall b', c :: 0 <= b' < emb.Length0 && 0 <= c < emb.Length1 && (b' >= b || !ts[b', c]) ==> emb[b', c] == old(emb[b', c])
    {
      k := FillRow(emb, ts, flat, slots, b, k);
    }
  }

  /** A mask entry or-ed in place with a slot flag, on a 0/1 entry. */
  function OrBit(x: int, flag: bool): (r: int)
    ensures !flag ==> r == x
    ensures flag && x == 0 ==> r == 1
  {
    if flag && x % 2 == 0 then x + 1 else x
  }

  /** Every cell of the fused mask is or-ed with its slot flag. */
  method OrMask(am: array2<int>, ts: array2<bool>)
    requires am.Length0 == ts.Length0 && am.Length1 == ts.Length1
    modifies am
    ensures forall b, c :: 0 <= b < am.Length0 && 0 <= c < am.Length1 ==> am[b, c] == OrBit(old(am[b, c]), ts[b, c])
  {
    for b := 0 to am.Length0
      invariant forall b', c :: 0 <= b' < am.Length0 && 0 <= c < am.Length1 ==>
        am[b', c] == if b' < b then OrBit(old(am[b', c]), ts[b', c]) else old(am[b', c])
    {
      for c := 0 to am.Length1
        invariant forall b', c' :: 0 <= b' < am.Length0 && 0 <= c' < am.Length1 ==>
          am[b', c'] == if b' < b || (b' == b && c' < c) then OrBit(old(am[b', c']), ts[b', c']) else old(am[b', c'])
      {
        am[b, c] := OrBit(am[b, c], ts[b, c]);
      }
    }
  }

  /** Position ids from the fused mask, row by row with a running sum. */
  method PositionIdsOf(am: array2<int>) returns (pos: array2<int>)
    ensures fresh(pos) && pos.Length0 == am.Length0 && pos.Length1 == am.Length1
    ensures forall b, c :: 0 <= b < am.Length0 && 0 <= c < am.Length1 ==> pos[b, c] == PositionIds(Row(am, b))[c]
  {
    pos := new int[am.Length0, am.Length1];
    for b := 0 to am.Length0
      invariant forall b', c :: 0 <= b' < b && 0 <= c < am.Length1 ==> pos[b', c] == PositionIds(Row(am, b'))[c]
    {
      ghost var row := Row(am, b);
      var sum := 0;
      for c := 0 to am.Length1
        invariant sum == Sum(row[..c])
        invariant forall b', c' :: 0 <= b' < b && 0 <= c' < am.Length1 ==> pos[b', c'] == PositionIds(Row(am, b'))[c']
        invariant forall c' :: 0 <= c' < c ==> pos[b, c'] == PositionIds(row)[c']
      {
        SumPrefixStep(row, c);
        sum := sum + am[b, c];
        pos[b, c] := if am[b, c] == 0 then 1 else sum - 1;
      }
    }
  }

  /** One row of the pad zeroing. */
  method ZeroPadRow(emb: array2<int>, ids: seq<seq<int>>, cfg: Config, patches: nat, b: nat)
    requires IsBatch(ids) && patches >= 1 && b < |ids|
    requires emb.Length0 == |ids| && emb.Length1 == FusedLength(ids, cfg, patches)
    modifies emb
    ensures forall c :: 0 <= c < emb.Length1 && PadHit(ids, cfg, patches, b, c) ==> emb[b, c] == 0
    ensures forall c :: 0 <= c < emb.Length1 && !PadHit(ids, cfg, patches, b, c) ==> emb[b, c] == old(emb[b, c])
    ensures forall b', c :: 0 <= b' < emb.Length0 && b' != b && 0 <= c < emb.Length1 ==> emb[b', c] == old(emb[b', c])
  {
    var d := Destinations(ids, cfg, patches, b);
    for j := 0 to Width(ids)
      invariant forall c :: 0 <= c < emb.Length1 && PadHitBefore(ids, cfg, patches, b, c, j) ==> emb[b, c] == 0
      invariant forall c :: 0 <= c < emb.Length1 && !PadHitBefore(ids, cfg, patches, b, c, j) ==> emb[b, c] == old(emb[b, c])
      invariant forall b', c :: 0 <= b' < emb.Length0 && b' != b && 0 <= c < emb.Length1 ==> emb[b', c] == old(emb[b', c])
    {
      PadHitBeforeStep(ids, cfg, patches, b, j);
      if ids[b][j] == cfg.padToken {
        emb[b, d[j]] := 0;
      }
    }
  }

  /** Zero the embedding wherever a pad token was scattered. */
  method ZeroPads(emb: array2<int>, ids: seq<seq<int>>, cfg: Config, patches: nat)
    requires IsBatch(ids) && patches >= 1
    requires emb.Length0 == |ids| && emb.Length1 == FusedLength(ids, cfg, patches)
    modifies emb
    ensures forall b, c :: 0 <= b < emb.Length0 && 0 <= c < emb.Length1 && PadHit(ids, cfg, patches, b, c) ==> emb[b, c] == 0
    ensures forall b, c :: 0 <= b < emb.Length0 && 0 <= c < emb.Length1 && !PadHit(ids, cfg, patches, b, c) ==>
      emb[b, c] == old(emb[b, c])
  {
    for b := 0 to |ids|
      invariant forall b', c :: 0 <= b' < b && 0 <= c < emb.Length1 && PadHit(ids, cfg, patches, b', c) ==> emb[b', c] == 0
      invariant forall b', c :: 0 <= b' < emb.Length0 && 0 <= c < emb.Length1 && (b' >= b || !PadHit(ids, cfg, patches, b', c)) ==>
        emb[b', c] == old(emb[b', c])
    {
      ZeroPadRow(emb, ids, cfg, patches, b);
    }
  }

  /** A text column's destination is a text position, never a slot, and is
      zeroed exactly when the column holds the pad token (destinations are
      distinct). */
  lemma TextCell(ids: seq<seq<int>>, cfg: Config, patches: nat, b: nat, j: nat)
    requires IsBatch(ids) && patches >= 1 && b < |ids| && j < Width(ids)
    requires ids[b][j] != cfg.timeSeriesToken
    ensures IsTextDest(ids, cfg, patches, b, Destinations(ids, cfg, patches, b)[j])
    ensures !SlotRow(ids, cfg, patches, b)[Destinations(ids, cfg, patches, b)[j]]
    ensures PadHit(ids, cfg, patches, b, Destinations(ids, cfg, patches, b)[j]) <==> ids[b][j] == cfg.padToken
  {
    var d := Destinations(ids, cfg, patches, b);
    assert TextDestBefore(ids, cfg, patches, b, d[j], Width(ids));
    if PadHit(ids, cfg, patches, b, d[j]) {
      var k :| 0 <= k < Width(ids) && ids[b][k] == cfg.padToken && d[k] == d[j];
      assert k == j;
    }
  }

  /** A zero embedding with the text embeddings
      scattered to their destinations. */
  method TextEmbedding(cfg: Config, patches: nat, embeds: seq<seq<int>>, ids: seq<seq<int>>) returns (emb: array2<int>)
    requires IsBatch(ids) && patches >= 1 && SameShape(embeds, ids)
    ensures fresh(emb) && emb.Length0 == |ids| && emb.Length1 == FusedLength(ids, cfg, patches)
    ensures forall b, j :: 0 <= b < |ids| && 0 <= j < Width(ids) && ids[b][j] != cfg.timeSeriesToken ==>
      emb[b, Destinations(ids, cfg, patches, b)[j]] == embeds[b][j]
    ensures forall b, c :: 0 <= b < |ids| && 0 <= c < emb.Length1 && !IsTextDest(ids, cfg, patches, b, c) ==> emb[b, c] == 0
  {
    emb := new int[|ids|, FusedLength(ids, cfg, patches)]((b, c) => 0);
    ScatterText(emb, embeds, ids, cfg, patches);
  }

  /** The embedding before the pad positions are
      zeroed: the text embeddings at their destinations, the flattened
      features in the slots, 0 elsewhere. */
  method ScatterEmbedding(cfg: Config, features: seq<seq<int>>, patches: nat, embeds: seq<seq<int>>, ids: seq<seq<int>>,
                          ts: array2<bool>) returns (emb: array2<int>)
    requires IsBatch(ids) && patches >= 1 && SameShape(embeds, ids)
    requires forall i :: 0 <= i < |features| ==> |features[i]| == patches
    requires TotalPlaceholders(ids, cfg.timeSeriesToken) == |features|
    requires ts.Length0 == |ids| && ts.Length1 == FusedLength(ids, cfg, patches)
    requires forall b, c :: 0 <= b < |ids| && 0 <= c < ts.Length1 ==> ts[b, c] == SlotRow(ids, cfg, patches, b)[c]
    ensures fresh(emb) && emb.Length0 == |ids| && emb.Length1 == FusedLength(ids, cfg, patches)
    ensures forall b, j :: 0 <= b < |ids| && 0 <= j < Width(ids) && ids[b][j] != cfg.timeSeriesToken ==>
      emb[b, Destinations(ids, cfg, patches, b)[j]] == embeds[b][j]
    ensures forall b, c :: 0 <= b < |ids| && 0 <= c < emb.Length1 && SlotRow(ids, cfg, patches, b)[c] ==>
      Rank(SlotMatrix(ids, cfg, patches), b, c) < |Flatten(features)| &&
      emb[b, c] == Flatten(features)[Rank(SlotMatrix(ids, cfg, patches), b, c)]
    ensures forall b, c :: 0 <= b < |ids| && 0 <= c < emb.Length1 && !IsTextDest(ids, cfg, patches, b, c) && !SlotRow(ids, cfg, patches, b)[c] ==>
      emb[b, c] == 0
  {
    ghost var slots := SlotMatrix(ids, cfg, patches);
    var flat := Flatten(features);
    FlattenLength(features, patches);
    TotalSlots(ids, cfg, patches, |features|);
    emb := TextEmbedding(cfg, patches, embeds, ids);
    label Scattered:
    FillFeatures(emb, ts, flat, slots);
    forall b, j | 0 <= b < |ids| && 0 <= j < Width(ids) && ids[b][j] != cfg.timeSeriesToken
      ensures emb[b, Destinations(ids, cfg, patches, b)[j]] == embeds[b][j]
    {
      TextCell(ids, cfg, patches, b, j);
      var c := Destinations(ids, cfg, patches, b)[j];
      assert !ts[b, c];
      assert old@Scattered(emb[b, c]) == embeds[b][j];
    }
  }

  /** The fused embedding: every text column's embedding at its destination (0
      for a pad token), in every slot its flattened feature in row-major order
      (0 where a pad token was also scattered), 0 everywhere else. */
  ghost predicate EmbeddingLayout(emb: array2<int>, ids: seq<seq<int>>, cfg: Config, patches: nat,
                                  embeds: seq<seq<int>>, features: seq<seq<int>>)
    requires IsBatch(ids) && patches >= 1 && SameShape(embeds, ids)
    requires emb.Length0 == |ids| && emb.Length1 == FusedLength(ids, cfg, patches)
    reads emb
  {
    (forall b, j :: 0 <= b < |ids| && 0 <= j < Width(ids) && ids[b][j] != cfg.timeSeriesToken ==>
       emb[b, Destinations(ids, cfg, patches, b)[j]] == (if ids[b][j] == cfg.padToken then 0 else embeds[b][j])) &&
    (forall b, c :: 0 <= b < |ids| && 0 <= c < emb.Length1 && SlotRow(ids, cfg, patches, b)[c] ==>
       Rank(SlotMatrix(ids, cfg, patches), b, c) < |Flatten(features)| &&
       emb[b, c] == (if PadHit(ids, cfg, patches, b, c) then 0 else Flatten(features)[Rank(SlotMatrix(ids, cfg, patches), b, c)])) &&
    (forall b, c :: 0 <= b < |ids| && 0 <= c < emb.Length1 && !IsTextDest(ids, cfg, patches, b, c) && !SlotRow(ids, cfg, patches, b)[c] ==>
       emb[b, c] == 0)
  }

  /** The fused mask: every text column's mask at its destination, 1 in
      every slot, 0 everywhere else. */
  ghost predicate MaskLayout(am: array2<int>, ids: seq<seq<int>>, cfg: Config, patches: nat, mask: seq<seq<int>>)
    requires IsBatch(ids) && patches >= 1 && SameShape(mask, ids)
    requires am.Length0 == |ids| && am.Length1 == FusedLength(ids, cfg, patches)
    reads am
  {
    (forall b, j :: 0 <= b < |ids| && 0 <= j < Width(ids) && ids[b][j] != cfg.timeSeriesToken ==>
       am[b, Destinations(ids, cfg, patches, b)[j]] == mask[b][j]) &&
    (forall b, c :: 0 <= b < |ids| && 0 <= c < am.Length1 && SlotRow(ids, cfg, patches, b)[c] ==> am[b, c] == 1) &&
    (forall b, c :: 0 <= b < |ids| && 0 <= c < am.Length1 && !IsTextDest(ids, cfg, patches, b, c) && !SlotRow(ids, cfg, patches, b)[c] ==>
       am[b, c] == 0)
  }

  /** The fused labels: every text column's label at its destination, the ignore
      index everywhere else, slots included. */
  ghost predicate LabelLayout(lab: array2<int>, ids: seq<seq<int>>, cfg: Config, patches: nat, labels: seq<seq<int>>)
    requires IsBatch(ids) && patches >= 1 && SameShape(labels, ids)
    requires lab.Length0 == |ids| && lab.Length1 == FusedLength(ids, cfg, patches)
    reads lab
  {
    (forall b, j :: 0 <= b < |ids| && 0 <= j < Width(ids) && ids[b][j] != cfg.timeSeriesToken ==>
       lab[b, Destinations(ids, cfg, patches, b)[j]] == labels[b][j]) &&
    (forall b, c :: 0 <= b < |ids| && 0 <= c < lab.Length1 && !IsTextDest(ids, cfg, patches, b, c) ==>
       lab[b, c] == cfg.ignoreIndex)
  }

  /** The fused embedding, built stage by stage. */
  method BuildEmbedding(cfg: Config, features: seq<seq<int>>, patches: nat, embeds: seq<seq<int>>, ids: seq<seq<int>>,
                        ts: array2<bool>) returns (emb: array2<int>)
    requires IsBatch(ids) && patches >= 1 && SameShape(embeds, ids)
    requires forall i :: 0 <= i < |features| ==> |features[i]| == patches
    requires TotalPlaceholders(ids, cfg.timeSeriesToken) == |features|
    requires ts.Length0 == |ids| && ts.Length1 == FusedLength(ids, cfg, patches)
    requires forall b, c :: 0 <= b < |ids| && 0 <= c < ts.Length1 ==> ts[b, c] == SlotRow(ids, cfg, patches, b)[c]
    ensures fresh(emb) && emb.Length0 == |ids| && emb.Length1 == FusedLength(ids, cfg, patches)
    ensures EmbeddingLayout(emb, ids, cfg, patches, embeds, features)
  {
    emb := ScatterEmbedding(cfg, features, patches, embeds, ids, ts);
    ZeroPads(emb, ids, cfg, patches);
    forall b, j | 0 <= b < |ids| && 0 <= j < Width(ids) && ids[b][j] != cfg.timeSeriesToken
      ensures emb[b, Destinations(ids, cfg, patches, b)[j]] == (if ids[b][j] == cfg.padToken then 0 else embeds[b][j])
    {
      TextCell(ids, cfg, patches, b, j);
    }
  }

  /** The fused mask: the text mask at the
      destinations, 1 in the slots, 0 elsewhere. */
  method BuildMask(cfg: Config, patches: nat, ids: seq<seq<int>>, mask: seq<seq<int>>, ts: array2<bool>) returns (am: array2<int>)
    requires IsBatch(ids) && patches >= 1 && SameShape(mask, ids)
    requires ts.Length0 == |ids| && ts.Length1 == FusedLength(ids, cfg, patches)
    requires forall b, c :: 0 <= b < |ids| && 0 <= c < ts.Length1 ==> ts[b, c] == SlotRow(ids, cfg, patches, b)[c]
    ensures fresh(am) && am.Length0 == |ids| && am.Length1 == FusedLength(ids, cfg, patches)
    ensures MaskLayout(am, ids, cfg, patches, mask)
  {
    am := new int[|ids|, FusedLength(ids, cfg, patches)]((b, c) => 0);
    ScatterText(am, mask, ids, cfg, patches);
    OrMask(am, ts);
    forall b, j | 0 <= b < |ids| && 0 <= j < Width(ids) && ids[b][j] != cfg.timeSeriesToken
      ensures am[b, Destinations(ids, cfg, patches, b)[j]] == mask[b][j]
    {
      TextCell(ids, cfg, patches, b, j);
    }
  }

  /** The fused labels when labels are given: the
      text labels at the destinations, the ignore index elsewhere. */
  method BuildLabels(cfg: Config, patches: nat, ids: seq<seq<int>>, labels: seq<seq<int>>) returns (lab: array2<int>)
    requires IsBatch(ids) && patches >= 1 && SameShape(labels, ids)
    ensures fresh(lab) && lab.Length0 == |ids| && lab.Length1 == FusedLength(ids, cfg, patches)
    ensures LabelLayout(lab, ids, cfg, patches, labels)
  {
    lab := new int[|ids|, FusedLength(ids, cfg, patches)]((b, c) => cfg.ignoreIndex);
    ScatterText(lab, labels, ids, cfg, patches);
  }

  /** When the pad token is not the placeholder token, no pad token lands in
      a slot, so the pad zeroing never erases a time-series feature. */
  lemma SlotsAvoidPads(ids: seq<seq<int>>, cfg: Config, patches: nat, b: nat, c: int)
    requires IsBatch(ids) && patches >= 1 && b < |ids| && 0 <= c < FusedLength(ids, cfg, patches)
    requires cfg.padToken != cfg.timeSeriesToken
    requires SlotRow(ids, cfg, patches, b)[c]
    ensures !PadHit(ids, cfg, patches, b, c)
  {
    if PadHit(ids, cfg, patches, b, c) {
      var k :| 0 <= k < Width(ids) && ids[b][k] == cfg.padToken && Destinations(ids, cfg, patches, b)[k] == c;
      TextCell(ids, cfg, patches, b, k);
    }
  }

  /** Feature vector number i of the flattened features is held by the slot
      whose row-major rank is i, for every i; with SlotAtUnique no other slot
      has that rank, so each feature vector lands in exactly one cell. */
  ghost predicate FeaturesPlaced(emb: array2<int>, ids: seq<seq<int>>, cfg: Config, patches: nat, features: seq<seq<int>>)
    requires IsBatch(ids) && patches >= 1
    requires emb.Length0 == |ids| && emb.Length1 == FusedLength(ids, cfg, patches)
    requires |Flatten(features)| == SlotsBefore(SlotMatrix(ids, cfg, patches), |ids|)
    reads emb
  {
    forall i :: 0 <= i < |Flatten(features)| ==>
      var p := SlotAt(SlotMatrix(ids, cfg, patches), i, |ids|);
      emb[p.0, p.1] == Flatten(features)[i]
  }

  /** When the pad token is not the placeholder, the flattened features and
      the slots are equally many, and every fused embedding laid out as
      EmbeddingLayout describes holds each feature vector in its slot. */
  lemma FeaturesPlacedInSlots(emb: array2<int>, ids: seq<seq<int>>, cfg: Config, patches: nat,
                              embeds: seq<seq<int>>, features: seq<seq<int>>)
    requires IsBatch(ids) && patches >= 1 && SameShape(embeds, ids)
    requires forall i :: 0 <= i < |features| ==> |features[i]| == patches
    requires TotalPlaceholders(ids, cfg.timeSeriesToken) == |features| && cfg.padToken != cfg.timeSeriesToken
    requires emb.Length0 == |ids| && emb.Length1 == FusedLength(ids, cfg, patches)
    requires EmbeddingLayout(emb, ids, cfg, patches, embeds, features)
    ensures |Flatten(features)| == SlotsBefore(SlotMatrix(ids, cfg, patches), |ids|)
    ensures FeaturesPlaced(emb, ids, cfg, patches, features)
  {
    var slots := SlotMatrix(ids, cfg, patches);
    var flat := Flatten(features);
    FlattenLength(features, patches);
    TotalSlots(ids, cfg, patches, |features|);
    forall i | 0 <= i < |flat|
      ensures var p := SlotAt(slots, i, |ids|); emb[p.0, p.1] == flat[i]
    {
      var p := SlotAt(slots, i, |ids|);
      assert SlotRow(ids, cfg, patches, p.0)[p.1];
      SlotsAvoidPads(ids, cfg, patches, p.0, p.1);
    }
  }

  /** The whole of sequence fusion: the error is
      raised exactly when the placeholder count differs from the number of
      time series; otherwise every text column lands at its destination (its
      embedding zeroed when it is a pad token), every slot holds its feature in
      row-major order with the mask set and the label ignored, every other
      position is empty, and the position ids follow the fused mask. */
  method Merge(cfg: Config, features: seq<seq<int>>, patches: nat, embeds: seq<seq<int>>, ids: seq<seq<int>>,
               mask: seq<seq<int>>, labels: Option<seq<seq<int>>>) returns (r: Result<Fused, MergeError>)
    requires IsBatch(ids) && patches >= 1
    requires forall i :: 0 <= i < |features| ==> |features[i]| == patches
    requires SameShape(embeds, ids) && SameShape(mask, ids)
    requires labels.Some? ==> SameShape(labels.value, ids)
    ensures r.Failure? <==> TotalPlaceholders(ids, cfg.timeSeriesToken) != |features|
    ensures r.Failure? ==> r.error == PlaceholderMismatch(TotalPlaceholders(ids, cfg.timeSeriesToken), |features|)
    ensures r.Success? ==>
      var f := r.value;
      fresh(f.embedding) && fresh(f.attentionMask) && fresh(f.positionIds) &&
      f.embedding.Length0 == f.attentionMask.Length0 == f.positionIds.Length0 == |ids| &&
      f.embedding.Length1 == f.attentionMask.Length1 == f.positionIds.Length1 == FusedLength(ids, cfg, patches) &&
      (f.labels.Some? <==> labels.Some?) &&
      (f.labels.Some? ==> fresh(f.labels.value) && f.labels.value.Length0 == |ids| && f.labels.value.Length1 == FusedLength(ids, cfg, patches))
    ensures r.Success? ==>
      var f := r.value;
      EmbeddingLayout(f.embedding, ids, cfg, patches, embeds, features) &&
      MaskLayout(f.attentionMask, ids, cfg, patches, mask) &&
      (f.labels.Some? ==> LabelLayout(f.labels.value, ids, cfg, patches, labels.value)) &&
      forall b, c :: 0 <= b < |ids| && 0 <= c < FusedLength(ids, cfg, patches) ==>
        f.positionIds[b, c] == PositionIds(Row(f.attentionMask, b))[c]
    ensures r.Success? && cfg.padToken != cfg.timeSeriesToken ==>
      |Flatten(features)| == SlotsBefore(SlotMatrix(ids, cfg, patches), |ids|) &&
      FeaturesPlaced(r.value.embedding, ids, cfg, patches, features)
  {
    var ts := TimeSeriesSlots(ids, cfg, patches);
    ghost var slots := SlotMatrix(ids, cfg, patches);
    var n := CountSlots(ts, slots);
    TotalSlots(ids, cfg, patches, |features|);
    if n != |features| * patches {
      return Failure(PlaceholderMismatch(TotalPlaceholders(ids, cfg.timeSeriesToken), |features|));
    }
    var emb := BuildEmbedding(cfg, features, patches, embeds, ids, ts);
    var am := BuildMask(cfg, patches, ids, mask, ts);
    var lab: Option<array2<int>> := None;
    if labels.Some? {
      var l := BuildLabels(cfg, patches, ids, labels.value);
      lab := Some(l);
    }
    var pos := PositionIdsOf(am);
    if cfg.padToken != cfg.timeSeriesToken {
      FeaturesPlacedInSlots(emb, ids, cfg, patches, embeds, features);
    }
    r := Success(Fused(emb, am, lab, pos));
  }
}
