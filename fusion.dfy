/** Destination layout of sequence fusion, its first two steps: padding-side
    detection, the cumulative-sum destination of every token
    column, the fused length, and the left-padding shift. Token rows are `seq<int>`;
    a batch is a non-empty sequence of equally long, non-empty rows. */
module Fusion {
  import opened Rows

  /** The configuration entries fusion reads. */
  datatype Config = Config(timeSeriesToken: int, padToken: int, ignoreIndex: int)

  /** B >= 1 rows of one common length L >= 1 (the source indexes column -1
      and takes a maximum over rows, so neither may be empty). */
  ghost predicate IsBatch(ids: seq<seq<int>>)
  {
    |ids| >= 1 && |ids[0]| >= 1 && forall b :: 0 <= b < |ids| ==> |ids[b]| == |ids[0]|
  }

  /** A tensor with the same (B, L) shape as the token ids. */
  ghost predicate SameShape<T>(xs: seq<seq<T>>, ids: seq<seq<int>>)
  {
    |xs| == |ids| && forall b :: 0 <= b < |ids| ==> |xs[b]| == |ids[b]|
  }

  function Width(ids: seq<seq<int>>): nat
    requires IsBatch(ids)
  {
    |ids[0]|
  }

  function LastColumn(ids: seq<seq<int>>): (col: seq<int>)
    requires IsBatch(ids)
    ensures |col| == |ids|
  {
    seq(|ids|, b requires 0 <= b < |ids| => ids[b][Width(ids) - 1])
  }

  /** Left padding: no entry of the last column is the pad id. */
  predicate LeftPadding(ids: seq<seq<int>>, pad: int)
    requires IsBatch(ids)
  {
    CountOf(LastColumn(ids), pad) == 0
  }

  /** Left padding is detected exactly when no row has the pad id in its last column. */
  lemma LeftPaddingIffNoRowEndsInPad(ids: seq<seq<int>>, pad: int)
    requires IsBatch(ids)
    ensures LeftPadding(ids, pad) <==> forall b :: 0 <= b < |ids| ==> ids[b][Width(ids) - 1] != pad
  {
    var col := LastColumn(ids);
    if !LeftPadding(ids, pad) {
      var b :| 0 <= b < |ids| && col[b] == pad;
    } else {
      forall b | 0 <= b < |ids|
        ensures ids[b][Width(ids) - 1] != pad
      {
        assert col[b] in col;
      }
    }
  }

  /** Fused slots taken by one token: P for a placeholder, 1 otherwise. */
  function Step(id: int, tok: int, patches: nat): nat
  {
    if id == tok then patches else 1
  }

  function Steps(row: seq<int>, tok: int, patches: nat): (s: seq<int>)
    ensures |s| == |row|
  {
    seq(|row|, j requires 0 <= j < |row| => Step(row[j], tok, patches))
  }

  /** The new position of every token before the shift: a placeholder counts P
      columns and any other token one, and a token's position is the running
      total up to and including it, minus one. */
  function NewPositions(row: seq<int>, tok: int, patches: nat): (r: seq<int>)
    ensures |r| == |row|
  {
    seq(|row|, j requires 0 <= j < |row| => Sum(Steps(row, tok, patches)[..j + 1]) - 1)
  }

  /** Natural fused length of one row: last new position plus one. */
  function RowLength(row: seq<int>, tok: int, patches: nat): int
  {
    Sum(Steps(row, tok, patches))
  }

  lemma StepsPrefix(row: seq<int>, tok: int, patches: nat, k: nat)
    requires k <= |row|
    ensures Steps(row, tok, patches)[..k] == Steps(row[..k], tok, patches)
  {
  }

  /** Appending one token adds its step to the fused row length. */
  lemma RowLengthSnoc(row: seq<int>, tok: int, patches: nat)
    requires |row| > 0
    ensures RowLength(row, tok, patches) == RowLength(row[..|row| - 1], tok, patches) + Step(row[|row| - 1], tok, patches)
  {
    StepsPrefix(row, tok, patches, |row| - 1);
  }

  /** Appending one token keeps the earlier new positions and puts the new one at
      the last fused slot of the longer row. */
  lemma NewPositionsSnoc(row: seq<int>, tok: int, patches: nat)
    requires |row| > 0
    ensures forall j :: 0 <= j < |row| - 1 ==> NewPositions(row, tok, patches)[j] == NewPositions(row[..|row| - 1], tok, patches)[j]
    ensures NewPositions(row, tok, patches)[|row| - 1] == RowLength(row, tok, patches) - 1
  {
    var n := |row|;
    var init := row[..n - 1];
    forall j | 0 <= j < n - 1
      ensures NewPositions(row, tok, patches)[j] == NewPositions(init, tok, patches)[j]
    {
      StepsPrefix(row, tok, patches, j + 1);
      StepsPrefix(init, tok, patches, j + 1);
      assert row[..j + 1] == init[..j + 1];
    }
    assert Steps(row, tok, patches)[..n] == Steps(row, tok, patches);
  }

  /** A row's fused length is L + count * (P - 1). */
  lemma {:induction false} RowLengthClosedForm(row: seq<int>, tok: int, patches: nat)
    requires patches >= 1
    ensures RowLength(row, tok, patches) == |row| + CountOf(row, tok) * (patches - 1)
  {
    if row != [] {
      var init := row[..|row| - 1];
      RowLengthClosedForm(init, tok, patches);
      RowLengthSnoc(row, tok, patches);
      var c0, k := CountOf(init, tok), patches - 1;
      var l0 := RowLength(init, tok, patches);
      assert l0 == |init| + c0 * k;
      if row[|row| - 1] == tok {
        assert CountOf(row, tok) == c0 + 1;
        MulSucc(c0, k);
        assert RowLength(row, tok, patches) == l0 + patches;
      } else {
        assert CountOf(row, tok) == c0;
        assert RowLength(row, tok, patches) == l0 + 1;
      }
    }
  }

  lemma MulSucc(a: nat, k: nat)
    ensures (a + 1) * k == a * k + k
  {
  }

  /** Every token takes at least one fused slot. */
  lemma {:induction false} RowLengthAtLeastLength(row: seq<int>, tok: int, patches: nat)
    requires patches >= 1
    ensures RowLength(row, tok, patches) >= |row|
  {
    if row != [] {
      RowLengthAtLeastLength(row[..|row| - 1], tok, patches);
      RowLengthSnoc(row, tok, patches);
    }
  }

  /** The new positions are strictly increasing and lie in [0, RowLength). */
  lemma {:induction false} NewPositionsFacts(row: seq<int>, tok: int, patches: nat)
    requires patches >= 1
    ensures forall j :: 0 <= j < |row| ==> 0 <= NewPositions(row, tok, patches)[j] < RowLength(row, tok, patches)
    ensures forall i, j :: 0 <= i < j < |row| ==> NewPositions(row, tok, patches)[i] < NewPositions(row, tok, patches)[j]
  {
    if row != [] {
      var n := |row|;
      var init := row[..n - 1];
      NewPositionsFacts(init, tok, patches);
      NewPositionsSnoc(row, tok, patches);
      RowLengthSnoc(row, tok, patches);
      RowLengthAtLeastLength(init, tok, patches);
      var np, np0 := NewPositions(row, tok, patches), NewPositions(init, tok, patches);
      var len0 := RowLength(init, tok, patches);
      assert len0 <= np[n - 1] < RowLength(row, tok, patches);
      forall j | 0 <= j < n - 1
        ensures 0 <= np[j] < len0
      {
        assert np[j] == np0[j];
      }
    }
  }

  /** Largest placeholder count over the rows. */
  function MaxPlaceholders(ids: seq<seq<int>>, tok: int): (m: nat)
    ensures forall b :: 0 <= b < |ids| ==> CountOf(ids[b], tok) <= m
    ensures |ids| > 0 ==> exists b :: 0 <= b < |ids| && CountOf(ids[b], tok) == m
  {
    if ids == [] then 0
    else
      var rest := MaxPlaceholders(ids[..|ids| - 1], tok);
      var last := CountOf(ids[|ids| - 1], tok);
      assert forall b :: 0 <= b < |ids| - 1 ==> ids[b] == ids[..|ids| - 1][b];
      if last > rest then last else rest
  }

  /** Placeholders in the whole batch. */
  function TotalPlaceholders(ids: seq<seq<int>>, tok: int): nat
  {
    if ids == [] then 0 else TotalPlaceholders(ids[..|ids| - 1], tok) + CountOf(ids[|ids| - 1], tok)
  }

  /** The fused length: the largest placeholder count times (P - 1), plus L. */
  function FusedLength(ids: seq<seq<int>>, cfg: Config, patches: nat): (m: int)
    requires IsBatch(ids) && patches >= 1
    ensures m >= Width(ids)
  {
    var most := MaxPlaceholders(ids, cfg.timeSeriesToken);
    MulNonNegative(most, patches - 1);
    most * (patches - 1) + Width(ids)
  }

  lemma MulNonNegative(a: nat, b: nat)
    ensures a * b >= 0
  {
  }

  lemma MulMonotone(a: nat, b: nat, k: nat)
    requires a <= b
    ensures a * k <= b * k
  {
  }

  /** The fused length is the natural length of the longest fused row. */
  lemma FusedLengthIsLongestRow(ids: seq<seq<int>>, cfg: Config, patches: nat)
    requires IsBatch(ids) && patches >= 1
    ensures forall b :: 0 <= b < |ids| ==> RowLength(ids[b], cfg.timeSeriesToken, patches) <= FusedLength(ids, cfg, patches)
    ensures exists b :: 0 <= b < |ids| && RowLength(ids[b], cfg.timeSeriesToken, patches) == FusedLength(ids, cfg, patches)
  {
    var tok := cfg.timeSeriesToken;
    var m := MaxPlaceholders(ids, tok);
    forall b | 0 <= b < |ids|
      ensures RowLength(ids[b], tok, patches) <= FusedLength(ids, cfg, patches)
    {
      RowFitsFused(ids, cfg, patches, b);
    }
    var b :| 0 <= b < |ids| && CountOf(ids[b], tok) == m;
    RowLengthClosedForm(ids[b], tok, patches);
  }

  lemma RowFitsFused(ids: seq<seq<int>>, cfg: Config, patches: nat, b: nat)
    requires IsBatch(ids) && patches >= 1 && b < |ids|
    ensures RowLength(ids[b], cfg.timeSeriesToken, patches) <= FusedLength(ids, cfg, patches)
  {
    RowLengthClosedForm(ids[b], cfg.timeSeriesToken, patches);
    MulMonotone(CountOf(ids[b], cfg.timeSeriesToken), MaxPlaceholders(ids, cfg.timeSeriesToken), patches - 1);
  }

  lemma LastNewPosition(row: seq<int>, tok: int, patches: nat)
    requires |row| > 0
    ensures NewPositions(row, tok, patches)[|row| - 1] == RowLength(row, tok, patches) - 1
  {
    NewPositionsSnoc(row, tok, patches);
  }

  /** The pad offset of row b: how many columns its own fused length falls short
      of the fused length. */
  function PadOffset(ids: seq<seq<int>>, cfg: Config, patches: nat, b: nat): (off: int)
    requires IsBatch(ids) && patches >= 1 && b < |ids|
    ensures off == FusedLength(ids, cfg, patches) - RowLength(ids[b], cfg.timeSeriesToken, patches)
    ensures off >= 0
  {
    var np := NewPositions(ids[b], cfg.timeSeriesToken, patches);
    RowFitsFused(ids, cfg, patches, b);
    LastNewPosition(ids[b], cfg.timeSeriesToken, patches);
    FusedLength(ids, cfg, patches) - 1 - np[Width(ids) - 1]
  }

  /** Destination column of every token of row b: the new positions, shifted right
      by the row's pad offset under left padding. */
  function Destinations(ids: seq<seq<int>>, cfg: Config, patches: nat, b: nat): (d: seq<int>)
    requires IsBatch(ids) && patches >= 1 && b < |ids|
    ensures |d| == Width(ids)
    ensures forall i, j :: 0 <= i < j < |d| ==> d[i] < d[j]
    ensures forall j :: 0 <= j < |d| ==> 0 <= d[j] < FusedLength(ids, cfg, patches)
    ensures LeftPadding(ids, cfg.padToken) ==> d[|d| - 1] == FusedLength(ids, cfg, patches) - 1
  {
    var np := NewPositions(ids[b], cfg.timeSeriesToken, patches);
    var shift := if LeftPadding(ids, cfg.padToken) then PadOffset(ids, cfg, patches, b) else 0;
    NewPositionsFacts(ids[b], cfg.timeSeriesToken, patches);
    LastNewPosition(ids[b], cfg.timeSeriesToken, patches);
    RowFitsFused(ids, cfg, patches, b);
    seq(Width(ids), j requires 0 <= j < Width(ids) => np[j] + shift)
  }

  /** The shift Destinations applies to row b. */
  function Shift(ids: seq<seq<int>>, cfg: Config, patches: nat, b: nat): (s: int)
    requires IsBatch(ids) && patches >= 1 && b < |ids|
    ensures forall j :: 0 <= j < Width(ids) ==>
      Destinations(ids, cfg, patches, b)[j] == NewPositions(ids[b], cfg.timeSeriesToken, patches)[j] + s
    ensures 0 <= s <= PadOffset(ids, cfg, patches, b)
  {
    if LeftPadding(ids, cfg.padToken) then PadOffset(ids, cfg, patches, b) else 0
  }

  /** With no placeholder anywhere, fusion keeps the length and every column in place. */
  lemma NoPlaceholdersIsIdentityLayout(ids: seq<seq<int>>, cfg: Config, patches: nat)
    requires IsBatch(ids) && patches >= 1
    requires TotalPlaceholders(ids, cfg.timeSeriesToken) == 0
    ensures FusedLength(ids, cfg, patches) == Width(ids)
    ensures forall b, j :: 0 <= b < |ids| && 0 <= j < Width(ids) ==> Destinations(ids, cfg, patches, b)[j] == j
  {
    var tok := cfg.timeSeriesToken;
    NoPlaceholderRows(ids, tok);
    forall b, j | 0 <= b < |ids| && 0 <= j < Width(ids)
      ensures Destinations(ids, cfg, patches, b)[j] == j
    {
      IdentityAt(ids, cfg, patches, b, j);
    }
  }

  lemma IdentityAt(ids: seq<seq<int>>, cfg: Config, patches: nat, b: nat, j: nat)
    requires IsBatch(ids) && patches >= 1 && b < |ids| && j < Width(ids)
    requires MaxPlaceholders(ids, cfg.timeSeriesToken) == 0 && cfg.timeSeriesToken !in ids[b]
    ensures Destinations(ids, cfg, patches, b)[j] == j
  {
    var tok := cfg.timeSeriesToken;
    var row := ids[b];
    assert tok !in row[..j + 1];
    RowLengthWithoutToken(row[..j + 1], tok, patches);
    RowLengthWithoutToken(row, tok, patches);
    assert FusedLength(ids, cfg, patches) == Width(ids);
    NewPositionAt(row, tok, patches, j);
    assert Shift(ids, cfg, patches, b) == 0;
  }

  /** Token j lands at the last fused slot of the prefix ending with it. */
  lemma NewPositionAt(row: seq<int>, tok: int, patches: nat, j: nat)
    requires j < |row|
    ensures NewPositions(row, tok, patches)[j] == RowLength(row[..j + 1], tok, patches) - 1
  {
    StepsPrefix(row, tok, patches, j + 1);
  }

  /** A row without placeholders keeps its length. */
  lemma {:induction false} RowLengthWithoutToken(row: seq<int>, tok: int, patches: nat)
    requires tok !in row
    ensures RowLength(row, tok, patches) == |row|
  {
    if row != [] {
      assert row[..|row| - 1] <= row;
      RowLengthWithoutToken(row[..|row| - 1], tok, patches);
      RowLengthSnoc(row, tok, patches);
    }
  }

  lemma {:induction false} NoPlaceholderRows(ids: seq<seq<int>>, tok: int)
    requires TotalPlaceholders(ids, tok) == 0
    ensures forall b :: 0 <= b < |ids| ==> tok !in ids[b]
    ensures MaxPlaceholders(ids, tok) == 0
  {
    if ids != [] {
      NoPlaceholderRows(ids[..|ids| - 1], tok);
      assert forall b :: 0 <= b < |ids| - 1 ==> ids[b] == ids[..|ids| - 1][b];
    }
  }
}
