# Mists sequence fusion and cached generation, modelled in Dafny

Mists is a multimodal language model. It reads a batch of token-id rows in
which a placeholder token marks where a time series belongs. Each time series
has already been encoded into P patch embeddings. The model splices those
patches into the token embeddings, then generates text step by step with a
key/value cache.

This project models the integer and boolean index arithmetic of that
pipeline in `modeling_mists.py` and proves what it computes. It has three parts:

- **Sequence fusion** (`_merge_input_ids_with_time_series_features`).
  - Every non-placeholder token gets a destination column by a cumulative sum.
    A placeholder counts P columns and any other token counts 1.
  - The fused length is the sequence length plus the largest per-row
    placeholder count times P - 1.
  - Under left padding each row is shifted right by its pad offset.
  - Text embeddings, mask bits and labels are scattered to their destinations.
  - The leftover "time-series slots" are selected.
  - The call fails when the slot count differs from N * P.
  - Otherwise the flattened features fill the slots in row-major order. Then
    the mask is or-ed with the slots, position ids are derived from the mask,
    and embeddings at pad-token destinations are zeroed.
- **The decode step of `forward`.**
  - Which branch `forward` takes: fusion, decode-step mask extension, or neither.
  - The decode step builds a ones mask over the cache, zeroes the cache
    positions that were never attended, appends the current mask column and
    sets the position id to the sum of the row minus one.
- **`prepare_inputs_for_generation`.**
  - The ids are trimmed to the unprocessed suffix by three rules tried in order.
  - A size-limited cache cuts the mask.
  - Position ids are recomputed by the cumulative-sum rule and restricted to
    the trimmed length.
  - Given embeddings are used only without a cache.

Modules:

- `Wrappers`: `Option` and `Result`.
- `Rows`: sums, counts, Python's `s[start:]`, flattening, the position-id rule.
- `Fusion`: padding side, destinations, fused length, pad offset.
- `Slots`: the slot mask of lines 182-186, slot counts, row-major ranks.
- `Merge`: the imperative fusion on `array2`.
- `DecodeStep`: the dispatch and the decode-step mask.
- `Generation`: input preparation.

An embedding vector is modelled as one `int`, with 0 standing for the zero
vector. Vectors are only copied or zeroed, never combined, so nothing is lost.
Two behaviours of the code are kept as written:

- Line 186 drops the first `nb_time_series_pad` non-text columns of every
  row, whatever the padding side. Under left padding these are the pad
  prefix (`Slots.LeftPaddingSlotsSkipPadPrefix`). Under right padding the
  dropped columns are the row's first non-text columns in order: its
  placeholder columns first, then the start of its tail when the offset
  exceeds placeholder-count * P. Each row still gets placeholder-count * P
  slots (`Slots.SlotRowCount`), and for a shorter row some of them lie in its
  tail.
- Line 367 slices the position ids by the trimmed id width. A width of 0
  keeps every position id, because Python's `x[:, -0:]` is the whole row
  (`Generation.PositionIdsOfLastColumns`).

Masks are integer tensors. The `|=` of a mask entry with a boolean is
`OrBit`, a bitwise or with 1. The source applies it only to entries that are
still 0.

## Model

| member | source | states |
|---|---|---|
| Fusion.LeftPaddingIffNoRowEndsInPad | modeling_mists.py:133 | left padding is chosen exactly when no row has the pad id in its last column |
| Fusion.LeftPadding | modeling_mists.py:133 | left padding holds exactly when no entry of the last column is the pad id (its count there is 0) |
| Fusion.MaxPlaceholders | modeling_mists.py:135-138 | the result bounds every row's placeholder count and is attained by some row |
| Fusion.NewPositions | modeling_mists.py:147 | one new position per token: the running total of the column widths (P for a placeholder, 1 otherwise) up to the token, minus one |
| Fusion.RowLengthClosedForm | modeling_mists.py:147 | a row's fused length is its length plus its placeholder count times P - 1 |
| Fusion.NewPositionAt | modeling_mists.py:147 | token j's unshifted destination is the fused length of the prefix ending with it, minus one |
| Fusion.RowLengthWithoutToken | modeling_mists.py:147 | a row without placeholders keeps its length |
| Fusion.RowFitsFused | modeling_mists.py:138-139 | every row's fused length fits in `max_embed_dim` |
| Fusion.NewPositionsFacts | modeling_mists.py:147 | unshifted destinations are strictly increasing and lie in [0, row length) |
| Fusion.FusedLength | modeling_mists.py:138-139 | `max_embed_dim` is the largest placeholder count times P - 1, plus L, never below L |
| Fusion.TotalPlaceholders | modeling_mists.py:190 | the placeholder count of the whole batch is the sum of the rows' placeholder counts |
| Fusion.FusedLengthIsLongestRow | modeling_mists.py:138-139 | `max_embed_dim` bounds every row's fused length and equals the longest one |
| Fusion.PadOffset | modeling_mists.py:148 | `nb_time_series_pad` is the fused length minus the row's own fused length, never negative |
| Fusion.Shift | modeling_mists.py:149-150 | destinations are the cumulative positions plus a shift between 0 and the pad offset |
| Fusion.Destinations | modeling_mists.py:147-151 | destinations are strictly increasing (the scatter is injective) and inside [0, fused length); under left padding the last token lands at fused length - 1 |
| Fusion.NoPlaceholdersIsIdentityLayout | modeling_mists.py:138-151 | without placeholders the fused length is L and column j maps to j |
| Slots.LayoutTextSlots | modeling_mists.py:147 | in the unshifted layout a column holds text exactly when some non-placeholder token's destination is that column |
| Slots.NonTextRow | modeling_mists.py:182-185 | a row of fused length that is true exactly at the columns no text token is sent to |
| Slots.NonTextAt | modeling_mists.py:182-185 | a fused column holds no text exactly when it lies outside the shifted layout or at a placeholder column of it |
| Slots.NonTextRowParts | modeling_mists.py:182-185 | a row's candidates are the shift prefix, the placeholder columns of the layout, and the tail after it |
| Slots.NonTextCount | modeling_mists.py:182-185 | a row has fused length - L + placeholder-count non-text columns |
| Slots.SelectAfter | modeling_mists.py:186 | an entry stays true exactly when it is true and its cumulative count minus one is at least k; the length is kept |
| Slots.SlotRow | modeling_mists.py:186 | a row's slots: its non-text row after dropping the first pad-offset true entries, of fused length |
| Slots.SlotMatrix | modeling_mists.py:186 | one slot row per batch row, row b being SlotRow(b) |
| Slots.SelectAfterCount | modeling_mists.py:186 | dropping the first k true entries by cumulative count leaves max(count - k, 0) of them |
| Slots.SlotRowCount | modeling_mists.py:186 | each row gets exactly placeholder-count * P slots |
| Slots.LeftPaddingSlotsSkipPadPrefix | modeling_mists.py:186 | under left padding the slots are exactly the non-text columns at or after the row's pad offset |
| Slots.PadPrefixIsNonText | modeling_mists.py:149-150 | under left padding no text lands before the pad offset |
| Slots.SelectAfterTruePrefix | modeling_mists.py:186 | when the first k entries are all true, line 186 removes exactly those k |
| Slots.RankOrder | modeling_mists.py:194 | row-major slot ranks grow strictly and stay below the total slot count, so each slot gets its own feature |
| Slots.RowSlotAt | modeling_mists.py:194 | for every k below a row's slot count, a slot of that row with exactly k slots before it |
| Slots.SlotAt | modeling_mists.py:194 | for every feature index f below the slot count, a slot whose row-major rank is f: no feature is left without a slot |
| Slots.SlotAtUnique | modeling_mists.py:194 | any slot whose rank is f is the one SlotAt finds, so the slots and the feature indices correspond one to one |
| Slots.TotalSlots | modeling_mists.py:188-192 | the batch has total-placeholders * P slots, which differs from N * P exactly when the placeholder count differs from N |
| Rows.Flatten | modeling_mists.py:194 | the rows concatenated in order; with equally long rows its length is rows times width (`Rows.FlattenLength`) |
| Rows.FlattenAt | modeling_mists.py:194 | `reshape(-1, embed_dim)` puts patch p of series i at index i * P + p |
| Rows.PositionIdsCountAttended | modeling_mists.py:196 | on a 0/1 mask an attended position's id is the number of attended positions before it, an unattended one gets 1 |
| Rows.PositionIds | modeling_mists.py:196 | one id per mask entry: the running mask sum up to the entry minus one, and 1 where the mask is 0 |
| Rows.PySliceFrom | modeling_mists.py:343-367 | Python's `s[start:]`: its length for every sign of start (negative starts clamp, `-0` keeps everything), and it is a suffix |
| Merge.ScatterInto | modeling_mists.py:176-179 | with strictly increasing in-range destinations, every kept value lands at its destination and no other cell changes |
| Merge.ScatterRow | modeling_mists.py:176-179 | one row's text columns are copied to their destinations, nothing else changes |
| Merge.ScatterText | modeling_mists.py:176-179 | every text column is copied to its destination; every non-destination cell keeps its value |
| Merge.ClearTextRow | modeling_mists.py:185 | one row's text destinations become false, the rest keep their value |
| Merge.NonTextMask | modeling_mists.py:182-185 | the fresh mask is true exactly at the non-text columns |
| Merge.DropPadRow | modeling_mists.py:186 | the running-count loop computes the cumulative-sum selection of line 186 on one row |
| Merge.TimeSeriesSlots | modeling_mists.py:182-186 | the computed `time_series_to_overwrite` equals the slot rows |
| Merge.CountSlots | modeling_mists.py:188 | the loop's count is the total number of slots |
| Merge.FillRow | modeling_mists.py:194 | slot (b, c) of one row receives flattened feature number Rank(b, c), always in range; the running count ends at the next row's first rank; nothing else changes |
| Merge.FillFeatures | modeling_mists.py:194 | slot (b, c) receives flattened feature number Rank(b, c), always in range; other cells keep their value |
| Merge.OrBit | modeling_mists.py:195 | or-ing with false keeps the entry; or-ing 0 with true gives 1 |
| Merge.OrMask | modeling_mists.py:195 | each mask cell is or-ed with its slot bit |
| Merge.PositionIdsOf | modeling_mists.py:196 | the running-sum loop yields the cumulative-sum position ids of each fused mask row |
| Merge.PadHit | modeling_mists.py:199-200 | fused column c of row b is the destination of some pad-token column of that row |
| Merge.ZeroPadRow | modeling_mists.py:199-202 | one row's pad-token destinations are zeroed, nothing else changes |
| Merge.ZeroPads | modeling_mists.py:199-202 | exactly the cells a pad token was scattered to are zeroed |
| Merge.TextCell | modeling_mists.py:199-202 | a text destination is never a slot and is zeroed exactly when its token is the pad token |
| Merge.SlotsAvoidPads | modeling_mists.py:194-202 | if the pad token differs from the placeholder, no slot is zeroed |
| Merge.FeaturesPlacedInSlots | modeling_mists.py:194-202 | with the pad token distinct from the placeholder, the flattened features and the slots are equally many, and every embedding laid out as `EmbeddingLayout` holds feature f in the slot of rank f (`FeaturesPlaced`) |
| Merge.TextEmbedding | modeling_mists.py:154-178 | a fresh fused-shape tensor with the text embeddings at their destinations and 0 at every other cell |
| Merge.ScatterEmbedding | modeling_mists.py:154-194 | text embeddings at destinations, features in slots in row-major order, 0 elsewhere, before pad zeroing |
| Merge.BuildEmbedding | modeling_mists.py:154-202 | `EmbeddingLayout`: text embeddings at destinations (0 for pad tokens), features in slots in row-major order (0 where a pad token also landed), 0 elsewhere |
| Merge.BuildMask | modeling_mists.py:157-195 | `MaskLayout`: the text mask at destinations, 1 in every slot, 0 elsewhere |
| Merge.BuildLabels | modeling_mists.py:160-179 | `LabelLayout`: text labels at destinations, `ignore_index` everywhere else |
| Merge.Merge | modeling_mists.py:130-207 | fails exactly when the placeholder count differs from N, reporting both counts; otherwise returns fresh tensors of shape (B, fused length) whose cells satisfy `EmbeddingLayout`, `MaskLayout` and `LabelLayout`, labels present iff given, position ids following the fused mask; when the pad token differs from the placeholder, every flattened feature sits in the one slot of its rank (`FeaturesPlaced`) |
| DecodeStep.Dispatch | modeling_mists.py:242-261 | fusion runs iff no embeddings are given, time series are given and the length is not 1; the decode step runs iff no embeddings, a cache, time series and length 1; otherwise neither |
| DecodeStep.ExtendedMask | modeling_mists.py:273-287 | the (B, past_length) mask is 0 exactly at flagged cache positions and 1 elsewhere |
| DecodeStep.ExtendedRowSum | modeling_mists.py:290 | an extended row sums to the number of unflagged cache positions |
| DecodeStep.DecodeMask | modeling_mists.py:261-290 | the new mask has length past_length + 1 and starts with the extended mask; its last entry is the old mask's last column; the position id is the number of attended cache positions plus the current bit, minus 1 |
| Generation.SliceColumns | modeling_mists.py:352 | every row sliced from a start column by Python's rules, one result row per input row |
| Generation.SliceColumnsFacts | modeling_mists.py:343-359 | column slicing keeps a matrix, and each row is a suffix of the original |
| Generation.KeepUnprocessed | modeling_mists.py:343-355 | the kept ids are a common-width suffix of every row, never wider than the input |
| Generation.KeepUnprocessedMaskLonger | modeling_mists.py:347-348 | a longer mask keeps the last mask_len - past_length ids; a difference of 0 or one above the width keeps all; a negative one drops past_length - mask_len ids |
| Generation.KeepUnprocessedDropsHistory | modeling_mists.py:351-352 | otherwise, with past_length < len, the first past_length ids are dropped and the rest kept, so history plus kept ids is the row |
| Generation.ContainsToken | modeling_mists.py:354 | the token occurs in some row of the ids |
| Generation.KeepUnprocessedLastId | modeling_mists.py:353-355 | otherwise a placeholder anywhere keeps only the last id of each row; without one all ids are kept |
| Generation.TrimToCache | modeling_mists.py:336-359 | trimming keeps matrix shapes and the mask's presence; without a cache nothing changes |
| Generation.TrimToCacheMask | modeling_mists.py:358-359 | a cache holding fewer entries than it has seen cuts the mask to its last cache_length + len columns (all when that is 0); otherwise the mask is kept |
| Generation.GenerationPositionIds | modeling_mists.py:361-367 | given position ids pass through; otherwise they exist exactly when a mask exists |
| Generation.PositionIdsOfLastColumns | modeling_mists.py:364-367 | with a truthy cache the ids are the cumulative-sum ids of the last len mask columns; len 0 keeps the whole row |
| Generation.PrepareInputs | modeling_mists.py:333-384 | embeddings are used iff given and there is no cache, otherwise the trimmed ids; the ids are suffixes of the input rows; without a cache ids and mask are unchanged; given position ids are kept; the cache is passed on |

## Left out

- `MistsMultiModalProjector`, `_init_weights`, the time-series tower and the language model. They are learned floating-point layers and foreign modules. Their outputs enter the model as given inputs: the features, the token embeddings and the key/value cache.
- The loss computation. It is cross-entropy over floating-point logits.
- The float key-sum test of line 267. It is replaced by a given boolean flag per (row, cache position). So the `valid_indices` filter of line 282 always holds, because a flag exists only for positions below `past_length`.
- dtype and device transfers. They do not change any index or value the model tracks.
- The `Cache` object. It is reduced to `cacheLength`, `pastLength` and its truth value.
- The getters and setters, `tie_weights`, `resize_token_embeddings`, `_reorder_cache`, the output dataclass and tuple packing. They only delegate or pack values.
- `use_cache` and `time_series_values` in `prepare_inputs_for_generation`. They are forwarded unchanged into the returned dictionary and not modelled.
- Merge.Merge: requires P >= 1 and a batch with at least one row and one column. The source fails on an empty batch at `input_ids[:, -1]` and at `.max()`, and `P - 1` would make the fused length shrink.
- Merge.Merge: builds the three output tensors one after another, each by its own builder method. The source interleaves their writes and checks the slot count between the scatter and the feature fill. The arrays are distinct and the failing path returns no tensor, so no result differs.
- Merge.Merge, DecodeStep.DecodeMask: take the attention mask as a matrix that is always present. The forward pass declares it optional (modeling_mists.py:214), and with no mask the source fails where it reads the mask's dtype (line 158) or its shape (line 274). That failing path is not modelled.
