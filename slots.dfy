/** Time-series slot selection of sequence fusion: the fused
    positions no text token lands on, minus the first pad-offset many of
    them in each row, their row-major ranks, and the count check that raises the
    input-contract error. */
module Slots {
  import opened Rows
  import opened Fusion

  /** Some non-placeholder column k < j of row b is scattered to fused column c. */
  ghost predicate TextDestBefore(ids: seq<seq<int>>, cfg: Config, patches: nat, b: nat, c: int, j: nat)
    requires IsBatch(ids) && patches >= 1 && b < |ids| && j <= Width(ids)
  {
    exists k :: 0 <= k < j && ids[b][k] != cfg.timeSeriesToken && Destinations(ids, cfg, patches, b)[k] == c
  }

  /** Extending the scanned columns by column j adds j's destination when j is text. */
  lemma TextDestBeforeStep(ids: seq<seq<int>>, cfg: Config, patches: nat, b: nat, j: nat)
    requires IsBatch(ids) && patches >= 1 && b < |ids| && j < Width(ids)
    ensures forall c :: TextDestBefore(ids, cfg, patches, b, c, j + 1) <==>
      TextDestBefore(ids, cfg, patches, b, c, j) || (ids[b][j] != cfg.timeSeriesToken && Destinations(ids, cfg, patches, b)[j] == c)
  {
    var d := Destinations(ids, cfg, patches, b);
    forall c
      ensures TextDestBefore(ids, cfg, patches, b, c, j + 1) <==> TextDestBefore(ids, cfg, patches, b, c, j) || (ids[b][j] != cfg.timeSeriesToken && d[j] == c)
    {
      if TextDestBefore(ids, cfg, patches, b, c, j) {
        var k :| 0 <= k < j && ids[b][k] != cfg.timeSeriesToken && d[k] == c;
        assert 0 <= k < j + 1 && ids[b][k] != cfg.timeSeriesToken && d[k] == c;
      }
      if ids[b][j] != cfg.timeSeriesToken && d[j] == c {
        assert 0 <= j < j + 1 && ids[b][j] != cfg.timeSeriesToken && d[j] == c;
      }
      if TextDestBefore(ids, cfg, patches, b, c, j + 1) {
        var k :| 0 <= k < j + 1 && ids[b][k] != cfg.timeSeriesToken && d[k] == c;
        if k < j {
          assert 0 <= k < j && ids[b][k] != cfg.timeSeriesToken && d[k] == c;
        }
      }
    }
  }

  /** Fused column c of row b receives a text token. */
  ghost predicate IsTextDest(ids: seq<seq<int>>, cfg: Config, patches: nat, b: nat, c: int)
    requires IsBatch(ids) && patches >= 1 && b < |ids|
  {
    TextDestBefore(ids, cfg, patches, b, c, Width(ids))
  }

  /** Row b of the slot mask before the pad-offset drop: true where no text landed. */
  ghost function NonTextRow(ids: seq<seq<int>>, cfg: Config, patches: nat, b: nat): (r: seq<bool>)
    requires IsBatch(ids) && patches >= 1 && b < |ids|
    ensures |r| == FusedLength(ids, cfg, patches)
  {
    seq(FusedLength(ids, cfg, patches), c requires 0 <= c => !IsTextDest(ids, cfg, patches, b, c))
  }

  /** The pad-offset drop on one row: an entry stays true only when at least k
      true entries precede it, which drops the first k true entries. */
  function SelectAfter(bs: seq<bool>, k: int): (r: seq<bool>)
    ensures |r| == |bs|
  {
    seq(|bs|, c requires 0 <= c < |bs| => bs[c] && CountTrue(bs[..c + 1]) - 1 >= k)
  }

  lemma SelectAfterPrefix(bs: seq<bool>, k: int, n: nat)
    requires n <= |bs|
    ensures SelectAfter(bs, k)[..n] == SelectAfter(bs[..n], k)
  {
    forall c | 0 <= c < n
      ensures SelectAfter(bs, k)[c] == SelectAfter(bs[..n], k)[c]
    {
      assert bs[..c + 1] == bs[..n][..c + 1];
    }
  }

  /** Dropping the first k of the true entries leaves all but k of them. */
  lemma {:induction false} SelectAfterCount(bs: seq<bool>, k: int)
    requires k >= 0
    ensures CountTrue(SelectAfter(bs, k)) == if CountTrue(bs) >= k then CountTrue(bs) - k else 0
  {
    if bs != [] {
      var n := |bs|;
      SelectAfterCount(bs[..n - 1], k);
      SelectAfterPrefix(bs, k, n - 1);
      assert bs[..n] == bs;
    }
  }

  /** One token's block in the natural (unshifted) fused row: a single text
      slot, or P slots for a placeholder. */
  function Block(id: int, tok: int, patches: nat): (r: seq<bool>)
    ensures |r| == Step(id, tok, patches)
  {
    if id == tok then seq(patches, _ => false) else [true]
  }

  /** Which slots of a row's natural fused layout hold text. */
  function Layout(row: seq<int>, tok: int, patches: nat): (r: seq<bool>)
    ensures |r| == RowLength(row, tok, patches)
  {
    if row == [] then []
    else
      RowLengthSnoc(row, tok, patches);
      Layout(row[..|row| - 1], tok, patches) + Block(row[|row| - 1], tok, patches)
  }

  /** The natural layout holds one text slot per non-placeholder token. */
  lemma {:induction false} LayoutCount(row: seq<int>, tok: int, patches: nat)
    requires patches >= 1
    ensures CountTrue(Layout(row, tok, patches)) == |row| - CountOf(row, tok)
  {
    if row != [] {
      var n := |row|;
      var init, x := row[..n - 1], row[n - 1];
      LayoutCount(init, tok, patches);
      var blk := Block(x, tok, patches);
      assert Layout(row, tok, patches) == Layout(init, tok, patches) + blk;
      CountTrueAppend(Layout(init, tok, patches), blk);
      if x == tok {
        CountTrueAllFalse(blk);
      }
      assert CountOf(row, tok) == CountOf(init, tok) + (if x == tok then 1 else 0);
    }
  }

  /** The text slots of the natural layout are exactly the new positions of the
      non-placeholder tokens. */
  lemma {:induction false} LayoutTextSlots(row: seq<int>, tok: int, patches: nat)
    requires patches >= 1
    ensures forall c :: 0 <= c < RowLength(row, tok, patches) ==>
      (Layout(row, tok, patches)[c] <==>
       exists j :: 0 <= j < |row| && row[j] != tok && NewPositions(row, tok, patches)[j] == c)
  {
    if row != [] {
      var n := |row|;
      var init, x := row[..n - 1], row[n - 1];
      LayoutTextSlots(init, tok, patches);
      RowLengthSnoc(row, tok, patches);
      NewPositionsSnoc(row, tok, patches);
      NewPositionsFacts(init, tok, patches);
      var lay0, blk := Layout(init, tok, patches), Block(x, tok, patches);
      var np, np0 := NewPositions(row, tok, patches), NewPositions(init, tok, patches);
      var len0 := RowLength(init, tok, patches);
      forall c | 0 <= c < RowLength(row, tok, patches)
        ensures (lay0 + blk)[c] <==> exists j :: 0 <= j < n && row[j] != tok && np[j] == c
      {
        if c < len0 {
          assert (lay0 + blk)[c] == lay0[c];
          if lay0[c] {
            var j :| 0 <= j < n - 1 && init[j] != tok && np0[j] == c;
            assert row[j] != tok && np[j] == c;
          }
          if exists j :: 0 <= j < n && row[j] != tok && np[j] == c {
            var j :| 0 <= j < n && row[j] != tok && np[j] == c;
            assert j < n - 1;
            assert init[j] != tok && np0[j] == c;
          }
        } else {
          assert (lay0 + blk)[c] == blk[c - len0];
          if exists j :: 0 <= j < n && row[j] != tok && np[j] == c {
            var j :| 0 <= j < n && row[j] != tok && np[j] == c;
            assert j == n - 1;
          }
        }
      }
    }
  }

  /** Column c of row b is non-text exactly when it lies outside the shifted
      natural layout or on a placeholder slot of it. */
  lemma NonTextAt(ids: seq<seq<int>>, cfg: Config, patches: nat, b: nat, c: nat, s: int, lay: seq<bool>)
    requires IsBatch(ids) && patches >= 1 && b < |ids|
    requires c < FusedLength(ids, cfg, patches)
    requires s == Shift(ids, cfg, patches, b) && lay == Layout(ids[b], cfg.timeSeriesToken, patches)
    ensures NonTextRow(ids, cfg, patches, b)[c] == !(s <= c < s + |lay| && lay[c - s])
  {
    var tok := cfg.timeSeriesToken;
    var row := ids[b];
    var np := NewPositions(row, tok, patches);
    var d := Destinations(ids, cfg, patches, b);
    LayoutTextSlots(row, tok, patches);
    NewPositionsFacts(row, tok, patches);
    if IsTextDest(ids, cfg, patches, b, c) {
      var j :| 0 <= j < Width(ids) && row[j] != tok && d[j] == c;
      assert np[j] == c - s;
    }
  }

  function Negated(bs: seq<bool>): (r: seq<bool>)
    ensures |r| == |bs|
    ensures CountTrue(r) == |bs| - CountTrue(bs)
  {
    var r := seq(|bs|, c requires 0 <= c < |bs| => !bs[c]);
    CountTrueNegated(bs, r);
    r
  }

  function AllTrue(n: nat): (r: seq<bool>)
    ensures |r| == n
    ensures CountTrue(r) == n
  {
    var r := seq(n, _ => true);
    CountTrueAllTrue(r);
    r
  }

  /** A non-text row is the shift's pad prefix, the negated natural layout,
      and the trailing pad positions. */
  lemma NonTextRowParts(ids: seq<seq<int>>, cfg: Config, patches: nat, b: nat)
    requires IsBatch(ids) && patches >= 1 && b < |ids|
    ensures var s := Shift(ids, cfg, patches, b);
            var lay := Layout(ids[b], cfg.timeSeriesToken, patches);
            s + |lay| <= FusedLength(ids, cfg, patches) &&
            NonTextRow(ids, cfg, patches, b) == AllTrue(s) + Negated(lay) + AllTrue(FusedLength(ids, cfg, patches) - s - |lay|)
  {
    var m := FusedLength(ids, cfg, patches);
    var s := Shift(ids, cfg, patches, b);
    var lay := Layout(ids[b], cfg.timeSeriesToken, patches);
    var nt := NonTextRow(ids, cfg, patches, b);
    forall c | 0 <= c < m
      ensures nt[c] == !(s <= c < s + |lay| && lay[c - s])
    {
      NonTextAt(ids, cfg, patches, b, c, s, lay);
    }
    ThreeParts(nt, s, lay);
  }

  /** A row that is true outside a window [s, s + |lay|) and the negation of
      `lay` inside it is the concatenation of the three parts. */
  lemma ThreeParts(nt: seq<bool>, s: nat, lay: seq<bool>)
    requires s + |lay| <= |nt|
    requires forall c :: 0 <= c < |nt| ==> nt[c] == !(s <= c < s + |lay| && lay[c - s])
    ensures nt == AllTrue(s) + Negated(lay) + AllTrue(|nt| - s - |lay|)
  {
    var pre, mid, post := AllTrue(s), Negated(lay), AllTrue(|nt| - s - |lay|);
    forall c | 0 <= c < |nt|
      ensures nt[c] == (pre + mid + post)[c]
    {
      if c < s {
        assert (pre + mid + post)[c] == pre[c];
      } else if c < s + |lay| {
        assert (pre + mid + post)[c] == mid[c - s];
      } else {
        assert (pre + mid + post)[c] == post[c - s - |lay|];
      }
    }
  }

  /** A non-text row holds FusedLength - L + count(placeholders) entries. */
  lemma NonTextCount(ids: seq<seq<int>>, cfg: Config, patches: nat, b: nat)
    requires IsBatch(ids) && patches >= 1 && b < |ids|
    ensures CountTrue(NonTextRow(ids, cfg, patches, b)) ==
            FusedLength(ids, cfg, patches) - Width(ids) + CountOf(ids[b], cfg.timeSeriesToken)
  {
    var m := FusedLength(ids, cfg, patches);
    var s := Shift(ids, cfg, patches, b);
    var lay := Layout(ids[b], cfg.timeSeriesToken, patches);
    NonTextRowParts(ids, cfg, patches, b);
    LayoutCount(ids[b], cfg.timeSeriesToken, patches);
    CountTrueAppend(AllTrue(s) + Negated(lay), AllTrue(m - s - |lay|));
    CountTrueAppend(AllTrue(s), Negated(lay));
  }

  /** Row b of the slot mask after the pad-offset drop. */
  ghost function SlotRow(ids: seq<seq<int>>, cfg: Config, patches: nat, b: nat): (r: seq<bool>)
    requires IsBatch(ids) && patches >= 1 && b < |ids|
    ensures |r| == FusedLength(ids, cfg, patches)
  {
    SelectAfter(NonTextRow(ids, cfg, patches, b), PadOffset(ids, cfg, patches, b))
  }

  /** Each row gets exactly P slots per placeholder token it holds. */
  lemma SlotRowCount(ids: seq<seq<int>>, cfg: Config, patches: nat, b: nat)
    requires IsBatch(ids) && patches >= 1 && b < |ids|
    ensures CountTrue(SlotRow(ids, cfg, patches, b)) == CountOf(ids[b], cfg.timeSeriesToken) * patches
  {
    var cnt := CountOf(ids[b], cfg.timeSeriesToken);
    var nt := NonTextRow(ids, cfg, patches, b);
    var off := PadOffset(ids, cfg, patches, b);
    NonTextCount(ids, cfg, patches, b);
    RowLengthClosedForm(ids[b], cfg.timeSeriesToken, patches);
    RowLengthAtLeastLength(ids[b], cfg.timeSeriesToken, patches);
    var extra := RowLength(ids[b], cfg.timeSeriesToken, patches) - Width(ids);
    SelectedCount(nt, off, FusedLength(ids, cfg, patches), Width(ids), cnt, extra);
    MulSplit(cnt, patches);
  }

  lemma SelectedCount(nt: seq<bool>, off: int, m: int, w: int, cnt: nat, extra: int)
    requires off >= 0 && extra >= 0 && off == m - w - extra && CountTrue(nt) == m - w + cnt
    ensures CountTrue(SelectAfter(nt, off)) == cnt + extra
  {
    SelectAfterCount(nt, off);
  }

  lemma MulSplit(a: nat, k: nat)
    requires k >= 1
    ensures a * (k - 1) + a == a * k
  {
  }

  /** Under left padding a row's slots are exactly its non-text positions at or
      after its pad offset: the pad prefix is never filled with features. */
  lemma LeftPaddingSlotsSkipPadPrefix(ids: seq<seq<int>>, cfg: Config, patches: nat, b: nat)
    requires IsBatch(ids) && patches >= 1 && b < |ids|
    requires LeftPadding(ids, cfg.padToken)
    ensures forall c :: 0 <= c < FusedLength(ids, cfg, patches) ==>
      (SlotRow(ids, cfg, patches, b)[c] <==> PadOffset(ids, cfg, patches, b) <= c && NonTextRow(ids, cfg, patches, b)[c])
  {
    PadPrefixIsNonText(ids, cfg, patches, b);
    SelectAfterTruePrefix(NonTextRow(ids, cfg, patches, b), PadOffset(ids, cfg, patches, b));
  }

  /** When the first k entries are all true, dropping the first k true entries
      drops exactly that prefix. */
  lemma SelectAfterTruePrefix(nt: seq<bool>, k: nat)
    requires forall c :: 0 <= c < k && c < |nt| ==> nt[c]
    ensures forall c :: 0 <= c < |nt| ==> (SelectAfter(nt, k)[c] <==> k <= c && nt[c])
  {
    forall c | 0 <= c < |nt|
      ensures SelectAfter(nt, k)[c] <==> k <= c && nt[c]
    {
      SelectAfterTruePrefixAt(nt, k, c);
    }
  }

  lemma SelectAfterTruePrefixAt(nt: seq<bool>, k: nat, c: nat)
    requires forall c :: 0 <= c < k && c < |nt| ==> nt[c]
    requires c < |nt|
    ensures SelectAfter(nt, k)[c] <==> k <= c && nt[c]
  {
    if c < k {
      CountTrueAllTrue(nt[..c + 1]);
    } else {
      var pre, mid := nt[..k], nt[k..c];
      assert nt[..c + 1] == pre + (mid + [nt[c]]);
      CountTrueAppend(pre, mid + [nt[c]]);
      CountTrueAllTrue(pre);
      CountTrueAppend(mid, [nt[c]]);
    }
  }

  /** Under left padding every destination is at or after the row's pad
      offset, so the first `off` fused columns hold no text. */
  lemma PadPrefixIsNonText(ids: seq<seq<int>>, cfg: Config, patches: nat, b: nat)
    requires IsBatch(ids) && patches >= 1 && b < |ids|
    requires LeftPadding(ids, cfg.padToken)
    ensures forall c :: 0 <= c < PadOffset(ids, cfg, patches, b) && c < FusedLength(ids, cfg, patches) ==>
      NonTextRow(ids, cfg, patches, b)[c]
  {
    var off := PadOffset(ids, cfg, patches, b);
    var d := Destinations(ids, cfg, patches, b);
    var np := NewPositions(ids[b], cfg.timeSeriesToken, patches);
    NewPositionsFacts(ids[b], cfg.timeSeriesToken, patches);
    assert Shift(ids, cfg, patches, b) == off;
    forall j | 0 <= j < Width(ids)
      ensures d[j] >= off
    {
      assert d[j] == np[j] + off;
    }
  }

  /** Slots in the rows before row b. */
  function SlotsBefore(slots: seq<seq<bool>>, b: nat): nat
    requires b <= |slots|
  {
    if b == 0 then 0 else SlotsBefore(slots, b - 1) + CountTrue(slots[b - 1])
  }

  /** Row-major rank of fused position (b, c) among the slots: the index of the
      flattened feature that the feature fill writes there. */
  function Rank(slots: seq<seq<bool>>, b: nat, c: nat): nat
    requires b < |slots| && c <= |slots[b]|
  {
    SlotsBefore(slots, b) + CountTrue(slots[b][..c])
  }

  lemma {:induction false} SlotsBeforeMonotone(slots: seq<seq<bool>>, b1: nat, b2: nat)
    requires b1 <= b2 <= |slots|
    ensures SlotsBefore(slots, b1) <= SlotsBefore(slots, b2)
    decreases b2
  {
    if b1 < b2 {
      SlotsBeforeMonotone(slots, b1, b2 - 1);
    }
  }

  /** Every slot's rank is below the total slot count, and ranks grow strictly
      in row-major order: each slot receives its own feature vector. */
  lemma RankOrder(slots: seq<seq<bool>>, b1: nat, c1: nat, b2: nat, c2: nat)
    requires b1 < |slots| && c1 < |slots[b1]| && slots[b1][c1]
    requires b2 < |slots| && c2 <= |slots[b2]|
    requires b1 < b2 || (b1 == b2 && c1 < c2)
    ensures Rank(slots, b1, c1) < Rank(slots, b2, c2)
    ensures Rank(slots, b1, c1) < SlotsBefore(slots, |slots|)
  {
    var row := slots[b1];
    CountTruePrefixStep(row, c1);
    assert row[..|row|] == row;
    PrefixCountMonotone(row, c1 + 1, |row|);
    SlotsBeforeMonotone(slots, b1 + 1, |slots|);
    if b1 < b2 {
      SlotsBeforeMonotone(slots, b1 + 1, b2);
    } else {
      PrefixCountMonotone(row, c1 + 1, c2);
    }
  }

  lemma {:induction false} PrefixCountMonotone(s: seq<bool>, i: nat, j: nat)
    requires i <= j <= |s|
    ensures CountTrue(s[..i]) <= CountTrue(s[..j])
    decreases j
  {
    if i < j {
      PrefixCountMonotone(s, i, j - 1);
      CountTruePrefixStep(s, j - 1);
    }
  }

  /** The position of the true entry of s that has k true entries before it. */
  function RowSlotAt(s: seq<bool>, k: nat): (c: nat)
    requires k < CountTrue(s)
    ensures c < |s| && s[c] && CountTrue(s[..c]) == k
  {
    var init := s[..|s| - 1];
    if k < CountTrue(init) then
      var c := RowSlotAt(init, k);
      assert s[..c] == init[..c];
      c
    else
      assert s[..|s| - 1] == init;
      |s| - 1
  }

  /** The slot, among the first b rows, whose row-major rank is f: feature
      vector number f is written there. */
  function SlotAt(slots: seq<seq<bool>>, f: nat, b: nat): (p: (nat, nat))
    requires b <= |slots| && f < SlotsBefore(slots, b)
    ensures p.0 < b && p.1 < |slots[p.0]| && slots[p.0][p.1] && Rank(slots, p.0, p.1) == f
    decreases b
  {
    if f < SlotsBefore(slots, b - 1) then SlotAt(slots, f, b - 1)
    else (b - 1, RowSlotAt(slots[b - 1], f - SlotsBefore(slots, b - 1)))
  }

  /** No other slot has rank f: SlotAt is the only slot that receives feature f. */
  lemma SlotAtUnique(slots: seq<seq<bool>>, f: nat, b: nat, c: nat)
    requires f < SlotsBefore(slots, |slots|)
    requires b < |slots| && c < |slots[b]| && slots[b][c] && Rank(slots, b, c) == f
    ensures SlotAt(slots, f, |slots|) == (b, c)
  {
    var p := SlotAt(slots, f, |slots|);
    if p.0 < b || (p.0 == b && p.1 < c) {
      RankOrder(slots, p.0, p.1, b, c);
    } else if b < p.0 || (b == p.0 && c < p.1) {
      RankOrder(slots, b, c, p.0, p.1);
    }
  }

  /** The slot mask as a whole. */
  ghost function SlotMatrix(ids: seq<seq<int>>, cfg: Config, patches: nat): (s: seq<seq<bool>>)
    requires IsBatch(ids) && patches >= 1
    ensures |s| == |ids|
    ensures forall b :: 0 <= b < |ids| ==> s[b] == SlotRow(ids, cfg, patches, b)
  {
    seq(|ids|, b requires 0 <= b < |ids| => SlotRow(ids, cfg, patches, b))
  }

  /** The batch has P slots per placeholder, so the slot count differs from N * P exactly when the placeholder count differs from N. */
  lemma TotalSlots(ids: seq<seq<int>>, cfg: Config, patches: nat, instances: nat)
    requires IsBatch(ids) && patches >= 1
    ensures SlotsBefore(SlotMatrix(ids, cfg, patches), |ids|) == TotalPlaceholders(ids, cfg.timeSeriesToken) * patches
    ensures SlotsBefore(SlotMatrix(ids, cfg, patches), |ids|) != instances * patches <==>
            TotalPlaceholders(ids, cfg.timeSeriesToken) != instances
  {
    var slots := SlotMatrix(ids, cfg, patches);
    forall b | 0 <= b < |ids|
      ensures CountTrue(slots[b]) == CountOf(ids[b], cfg.timeSeriesToken) * patches
    {
      SlotRowCount(ids, cfg, patches, b);
    }
    SlotsBeforeCount(slots, ids, cfg.timeSeriesToken, patches, |ids|);
    assert ids[..|ids|] == ids;
    MulCancel(TotalPlaceholders(ids, cfg.timeSeriesToken), instances, patches);
  }

  lemma {:induction false} SlotsBeforeCount(slots: seq<seq<bool>>, ids: seq<seq<int>>, tok: int, patches: nat, b: nat)
    requires |slots| == |ids| && b <= |ids|
    requires forall i :: 0 <= i < |ids| ==> CountTrue(slots[i]) == CountOf(ids[i], tok) * patches
    ensures SlotsBefore(slots, b) == TotalPlaceholders(ids[..b], tok) * patches
  {
    if b > 0 {
      var a, c := TotalPlaceholders(ids[..b - 1], tok), CountOf(ids[b - 1], tok);
      SlotsBeforeCount(slots, ids, tok, patches, b - 1);
      assert ids[..b][..b - 1] == ids[..b - 1];
      assert TotalPlaceholders(ids[..b], tok) == a + c;
      assert SlotsBefore(slots, b) == a * patches + c * patches;
      MulAdd(a, c, patches);
    }
  }

  lemma MulAdd(a: nat, c: nat, k: nat)
    ensures a * k + c * k == (a + c) * k
  {
  }

  lemma MulCancel(a: nat, c: nat, k: nat)
    requires k >= 1
    ensures a * k == c * k <==> a == c
  {
    if a < c {
      MulMonotone(a + 1, c, k);
    } else if c < a {
      MulMonotone(c + 1, a, k);
    }
  }
}
