# Tetris emulator core, modelled in Dafny

This project models the game emulator of a HATETRIS-style Tetris search
(`src/emulator.rs`) and the state records it works on (`src/types.rs`).

- A well is `EFF_HEIGHT` rows of 16 bits. Row 0 is the top.
- A waveform is a 64-bit set of piece placements. One bit stands for one
  column and rotation of the piece.
- The emulator does four things:
  - finds the placements a piece can reach inside the collision mask of a
    height (`waveform_step`, a fixpoint loop);
  - drops the piece row by row, giving the layers where it can rest
    (`resting_waveforms`);
  - locks every placement of a waveform into the well, clears full rows and
    adds k² to the score (`waveform_to_wells`);
  - counts, placement by placement, how many of the four rows under the
    piece it completes (`score_slice`, `scores`), and bounds the height of
    the resulting stack (`get_wave_height`).
- The types file gives:
  - the records `State`, `StateH`, `StateP` and `StateD`;
  - their hand-written orderings and equality, and the conversions between them;
  - the SQL insert text and the ASCII picture of a well;
  - the search presets and the paths of the files a run writes.

The model has four files, one module each:

- `bits.dfy` (`Bits`): `u16` OR on integers. A waveform is the set of its
  bit positions. The `u64` shifts keep positions 0 to 63 only.
- `format.dfy` (`Format`): Rust's number and list formatting (`to_string`,
  `{}`, `{:b}`, `{:010b}`, `{:?}`). The decimal and list writers each have
  a reader and a lemma that reading gives back what was written. The binary
  writers are described digit by digit instead.
- `types.dfy` (`Types`): the records and everything `src/types.rs` does with them.
- `emulator.dfy` (`Emulator`): the emulator.

How the source's constructs are modelled:

- The game's constants and lookup tables come from `crate::constants`,
  `crate::masks` and `crate::pieces`, which are not part of this model.
  They are one datatype, `Emulator.Tables`.
- Only the tables' shape is assumed (`Tables.Valid`), so every result holds
  for any table contents.
- Loops in the source are loops here, with invariants, proved against
  specification functions. For example:
  - `WaveformStep` returns `Closure`, and `ClosureIsClosure` proves that this
    is the least set closed under moves.
  - `LockPlacement` returns `Lock`, and `LockEffect` and `ClearedEffect`
    state what locking does.
  - `RestingWaveforms` returns what `RestingList` describes, and its
    postcondition gives the disjointness of neighbouring entries.

## Model

| member | source | states |
|---|---|---|
| `Emulator.WellSlice` | src/emulator.rs:16-48 | entry `r` is 0 when row `height-4+r` is above the top, `MAX_ROW` when it is at or past `EFF_HEIGHT`, and that row of the well otherwise |
| `Emulator.WellSliceAtTop` | src/emulator.rs:16-48 | at height 0 the slice is four empty rows |
| `Emulator.WellSliceInside` | src/emulator.rs:16-48 | for `4 <= height <= EFF_HEIGHT` the slice is exactly `well[height-4..height]` |
| `Emulator.WellHeight` | src/emulator.rs:113-122 | the height is at most the number of rows, every row above it is 0, and the row at it is not 0 |
| `Emulator.GetWellHeight` | src/emulator.rs:113-122 | the counting loop returns `WellHeight`: all rows above it are empty, the row at it is not; an empty well gives `EFF_HEIGHT` |
| `Emulator.WellHeightUnique` | src/emulator.rs:113-122 | any `h` with empty rows above it and an occupied row at it is the well height |
| `Emulator.StepMaskMembers` | src/emulator.rs:86-91 | a placement is in the collision mask exactly when `EMPTY_MASKS[p]` and all four `ROW_MASKS` entries of the slice allow it |
| `Emulator.SliceMaskMembers` | src/emulator.rs:88-91 | after `n` rounds of the mask loop, a placement is in the mask exactly when `EMPTY_MASKS[p]` and the first `n` row masks allow it |
| `Emulator.ExpandGrows` | src/emulator.rs:97-102 | one round of moves keeps every placement it starts from |
| `Emulator.ExpandMonotone` | src/emulator.rs:97-102 | one round of moves from a larger set reaches a larger set |
| `Emulator.RoundsReachClosure` | src/emulator.rs:93-108 | repeating rounds of moves inside the mask until nothing new appears gives the least set of placements that holds the seed and is closed under moves |
| `Emulator.ClosureIsClosure` | src/emulator.rs:93-108 | `Closure` lies in the mask, holds `w_old & mask`, is a fixpoint `(w \| w<<4 \| w>>4 \| rotate(w)) & mask == w`, and is the least such set |
| `Emulator.ClosureUnique` | src/emulator.rs:93-108 | two sets that both satisfy that description are equal |
| `Emulator.WaveformStep` | src/emulator.rs:85-111 | the mask loop builds the collision mask; the while loop ends, because `w_seen` grows while `w_new` is non-empty; the result is the closure of `w_old` in that mask: a subset of the mask, a superset of `w_old & mask`, a fixpoint of one round of moves, and the least such set |
| `Emulator.RestingWaveforms` | src/emulator.rs:124-150 | the result is the resting list: entries at consecutive heights from the well height, the loop stops at the first empty layer or when `height + 1` reaches `WELL_HEIGHT`, `HEIGHT_MASKS` is removed from the first four heights, and after the last pass neighbouring entries share no placement |
| `Emulator.RestingRound` | src/emulator.rs:130-141 | one round of the loop adds the closure of the previous layer at the next height, and that layer without its `HEIGHT_MASKS` entry, at that height |
| `Emulator.SubtractNext` | src/emulator.rs:145-147 | the last pass removes from each entry the placements of the entry after it and keeps the last entry and all heights |
| `Emulator.RestingListOf` | src/emulator.rs:145-147 | the last pass applied to the cut layers gives the resting list |
| `Emulator.RestingListDisjoint` | src/emulator.rs:145-147 | neighbouring entries of the resting list share no placement and are one row apart |
| `Emulator.RestingLayersAreClosures` | src/emulator.rs:130-131 | each layer is the closure of the layer above it (of `EMPTY_MASKS[p]` for the first) in the collision mask of its height |
| `Emulator.PieceSlice` | src/emulator.rs:58 | `PIECE_LIST[p][i]`, four rows; what locking it does is stated by `LockEffect` |
| `Emulator.Placed` | src/emulator.rs:62-66 | the piece OR-ed into rows `height-4..height-1`; keeps the number of rows, and `PlacedRowAt` states which rows change |
| `Emulator.CountFull` | src/emulator.rs:67-68 | the number of rows equal to `MAX_ROW`, at most the number of rows |
| `Emulator.KeepRows` | src/emulator.rs:69-71 | the kept rows are all not full, and kept plus full rows make up all rows |
| `Emulator.Cleared` | src/emulator.rs:59-72 | zeros for the full rows, then the kept rows; keeps the number of rows, and `ClearedEffect` states where each row goes |
| `Emulator.AddScore` | src/emulator.rs:76 | `old_score + (k*k) as u16` in wrapping `u16` arithmetic equals `old_score + k*k` whenever that is below 2^16 |
| `Emulator.CountFullAppend` | src/emulator.rs:62-72 | counting full rows and keeping the others both distribute over concatenation |
| `Emulator.ClearedMovesRow` | src/emulator.rs:69-71 | a row that is not full moves down by the number of full rows below it |
| `Emulator.ClearedEffect` | src/emulator.rs:59-72 | after clearing: the same number of rows, no full row, the top `k` rows empty for `k` full rows, and every other row moved down past the full rows below it, in its order |
| `Emulator.LockEffect` | src/emulator.rs:59-77 | a locked state's well is the placed well with its full rows cleared, it has no full row, and its score is `old + k*k` whenever that fits in `u16` |
| `Emulator.CountFullWindow` | src/emulator.rs:64-68 | rows that can only be full between `lo` and `hi` number at most `hi - lo` |
| `Emulator.LockClearsAtMostFour` | src/emulator.rs:63-68 | a well with no full row gets at most four full rows from one piece |
| `Emulator.Placements` | src/emulator.rs:56-57 | the listed bits are set in the waveform and lie below `n` |
| `Emulator.PlacementsAreTheBits` | src/emulator.rs:56-79 | the list holds every set bit below `n`, and only those, in increasing order |
| `Emulator.LocksBelowPlacements` | src/emulator.rs:56-80 | one state per set bit, in increasing bit order; bit `b` locks `PIECE_LIST[p][WAVE_SIZE-1-b]` |
| `Emulator.ShiftedStep` | src/emulator.rs:57-79 | after `k` one-bit right shifts, the low bit `w % 2` is bit `k` of the waveform |
| `Emulator.PlacedRowAt` | src/emulator.rs:64-65 | the source's test `row <= height-1 && row+4 > height-1`, with `height-1` wrapping at height 0, picks the rows where the piece is OR-ed in, at slice entry `3-(height-1-row)` |
| `Emulator.Compacted` | src/emulator.rs:62-72 | the new well after the row loop has passed rows `row..` from the bottom; keeps the number of rows, and `CompactStep` states one step |
| `Emulator.CompactStep` | src/emulator.rs:67-71 | one step of the row loop: a full row adds one to the count, any other row is written at `row + score` |
| `Emulator.LockPlacement` | src/emulator.rs:58-77 | the row loop with its counter and `new_well[row + score]` returns `Lock`: the placed well, cleared, and the score with `k*k` added |
| `Emulator.WaveformToWells` | src/emulator.rs:50-83 | the bit loop returns one locked state per set bit among the low `WAVE_SIZE` bits, lowest bit first |
| `Emulator.SingleMove` | src/emulator.rs:265-275 | for the given piece: the states of every entry of its resting list (a ghost result), in list order, each entry's states in bit order |
| `Emulator.ScoreSliceOf` | src/emulator.rs:152-160 | four entries, each a subset of `wave` |
| `Emulator.ScoreSlice` | src/emulator.rs:152-160 | entry `i` is `SCORE_MASKS[p][slice[i]][i] & wave` |
| `Emulator.HitsMembers` | src/emulator.rs:167-194 | by how many of the four slice entries hold a placement: none, odd, two or three, exactly three, all four |
| `Emulator.UnionMember` | src/emulator.rs:173-189 | a placement is in the union of the first `n` entries exactly when one of them holds it |
| `Emulator.EarlyReturns` | src/emulator.rs:167-199 | applies the early returns of lines 168, 173, 184 and 193 to five computed entries; `EarlyReturnsShape` states which entries survive |
| `Emulator.EarlyReturnsShape` | src/emulator.rs:167-199 | entry 0 is always computed; entry `k` is computed exactly when the entries before it do not cover `wave`, and is 0 otherwise |
| `Emulator.Candidates` | src/emulator.rs:167-197 | the five combinations lines 167-197 compute before the early returns; `ScoresOfEntries` states their members |
| `Emulator.ScoresOf` | src/emulator.rs:162-200 | the five entries `scores` returns as written; `ScoresOfEntries` states their members |
| `Emulator.Scores` | src/emulator.rs:162-200 | `scores` as written returns `ScoresOf` of its score slice |
| `Emulator.ScoresOfEntries` | src/emulator.rs:162-200 | every entry is a subset of `wave`; entry 0 is exactly the placements in none of the slice entries; once reached, entry 1 holds odd counts, entry 2 counts of two or three, entry 3 counts of three, entry 4 counts of four; entries after an early return are empty |
| `Emulator.ScoresThreeRowsAsOne` | src/emulator.rs:172-176 | a placement completing three rows is returned in entry 1, with entries 2 to 4 empty |
| `Emulator.CandidatesExact` | src/emulator.rs:167-197 | the five combinations with entry 1 limited to exactly one row; `ScoresExactEntries` states their members |
| `Emulator.ScoresExact` | src/emulator.rs:162-200 | the five entries of the corrected `scores`; `ScoresExactEntries` states their members |
| `Emulator.ScoresExactEntries` | src/emulator.rs:162-200 | entry `k` of the corrected scores is exactly the placements of `wave` that complete `k` rows |
| `Emulator.ScoresCorrected` | src/emulator.rs:162-200 | the corrected `scores` returns `ScoresExact` of its score slice |
| `Emulator.HeightWitnessAt` | src/emulator.rs:219-223 | for any five score entries, a non-empty `HEIGHT_MASKS[p][row] & wsc[s]` makes `min(well_height, wave_height+row-4) + s` a candidate height |
| `Emulator.MaxCandidateHeight` | src/emulator.rs:212-235 | the loops over the five score entries and the `HEIGHT_MASKS` rows, with both `break`s, give a result never below `-WELL_LINE` nor above the well height + 4, and either `-WELL_LINE` or a candidate height of those scores |
| `Emulator.GetWaveHeight` | src/emulator.rs:202-236 | `get_wave_height` as written, on the scores `scores` returns: `-WELL_LINE` for an empty waveform; otherwise never below `-WELL_LINE` nor above `get_well_height + 4`, and either `-WELL_LINE` or a candidate height of those scores |
| `Emulator.GetWaveHeightCorrected` | src/emulator.rs:202-236 | the same loops on the corrected scores, where entry `s` holds the placements completing `s` rows: the same bounds, and the result is `-WELL_LINE` or a candidate height of the corrected scores |
| `Bits.RowOr` | src/emulator.rs:65 | `u16` OR stays below 2^16 and sets exactly the bits set in either operand |
| `Format.NatText` | src/types.rs:220-224 | `to_string` of an unsigned number is a non-empty string of digits, with no leading zero unless the number is 0 |
| `Format.IntText` | src/types.rs:220-222 | `to_string` of a signed number starts with '-' exactly when it is negative |
| `Format.NatTextValue` | src/types.rs:224 | the digits of `to_string(n)` have the value `n` |
| `Format.ParseNatText` | src/types.rs:224 | reading digits back from `to_string(n)` gives `n` and the rest of the text |
| `Format.ParseIntText` | src/types.rs:220-222 | reading a signed number back from `to_string(i)` gives `i` and the rest of the text |
| `Format.NatTextInjective` | src/types.rs:224 | different numbers give different texts |
| `Format.ZeroPadBinary` | src/types.rs:235 | `{:010b}` of a number below 2^10 is its low ten bits, most significant first |
| `Format.BinaryDigits` | src/types.rs:235 | `{:0w$b}` of a number below 2^w has `w` characters, character `j` being bit `w-1-j` |
| `Format.ParseListText` | src/types.rs:218 | reading back the `{:?}` text of the rows gives the rows and the rest of the text |
| `Types.CompareWellRows` | src/types.rs:49-56 | the comparison loop gives `CompareWells`: the first differing row decides |
| `Types.CompareStates` | src/types.rs:42-58 | `State::cmp` orders by score, then by rows from index 0, and is `Equal` exactly for equal states |
| `Types.CompareStatesH` | src/types.rs:90-111 | `StateH::cmp` orders by heuristic, then score, then rows from index 0 |
| `Types.CompareStatesD` | src/types.rs:185-201 | `StateD::cmp` orders by score, then rows from index 0 |
| `Types.CompareWellsFrom` | src/types.rs:51-53 | an equal row at index `i` leaves the comparison to the rows after it |
| `Types.CompareWellsEqual` | src/types.rs:49-56 | the row comparison is `Equal` exactly for equal wells |
| `Types.CompareWellsReverse` | src/types.rs:49-56 | swapping the wells reverses the row comparison |
| `Types.CompareWellsTransitive` | src/types.rs:49-56 | the row comparison is transitive, and it calls `a` and `c` equal only when it calls both steps equal |
| `Types.StateOrderEqual` | src/types.rs:42-58 | `State::cmp` is `Equal` exactly when score and all rows agree, as the derived `==` says |
| `Types.StateOrderReverse` | src/types.rs:42-58 | `State::cmp` is antisymmetric |
| `Types.StateOrderTransitive` | src/types.rs:42-58 | `State::cmp` is transitive |
| `Types.StateHOrderEqual` | src/types.rs:90-111 | `StateH::cmp` is `Equal` exactly when heuristic, score and rows agree |
| `Types.StateHOrderReverse` | src/types.rs:90-111 | `StateH::cmp` is antisymmetric |
| `Types.StateHOrderTransitive` | src/types.rs:90-111 | `StateH::cmp` is transitive |
| `Types.StateHOrderRefines` | src/types.rs:90-111 | for equal heuristics, `StateH::cmp` is `State::cmp` of the converted states |
| `Types.StateDOrderIgnoresKeys` | src/types.rs:185-201 | `StateD::cmp` does not look at `depth` or `run_id`: it is `State::cmp` of the state in the record |
| `Types.StateDOrderCoarserThanEquality` | src/types.rs:156-201 | two records differing in `depth` only are unequal under the derived `==` but `Equal` under `cmp` |
| `Types.StateHEq` | src/types.rs:73-86 | `StateH::eq` as written holds exactly when the wells match, whatever the scores and heuristics |
| `Types.StateHEqIgnoresScore` | src/types.rs:75 | two records with different scores that `StateH::eq` calls equal |
| `Types.StateHEqCorrected` | src/types.rs:73-86 | with `self.score != other.score`, equality holds exactly when score and wells match |
| `Types.NewState` | src/types.rs:26-31 | `State::new()`: `EFF_HEIGHT` rows, all zero, and score 0; `NewStateLeast` proves it least under `State::cmp` |
| `Types.NewStateH` | src/types.rs:120-126 | `StateH::new()`: converts to `State::new()` and has heuristic `i64::MIN`; `NewStateHLeast` proves it least under `StateH::cmp` |
| `Types.ToStateD` | src/types.rs:164-171 | `StateD::convert`: `convert_tuple` of its result gives back the state and the two keys |
| `Types.SplitStateD` | src/types.rs:173-181 | `StateD::convert_tuple`: the well and score as a `State`, and `(depth, run_id)`; `SplitStateDRoundTrip` proves that `convert` rebuilds the record from it |
| `Types.EmptyWell` | src/types.rs:27-32 | `[0; EFF_HEIGHT]`; `EmptyWellLeast` proves it is least under the row order |
| `Types.FromStateH` | src/types.rs:34-39 | `State::convert` keeps well and score |
| `Types.StatePToState` | src/types.rs:140-145 | `StateP::convert_state` keeps well and score |
| `Types.EmptyWellLeast` | src/types.rs:27-32 | the empty well compares below or equal to every well |
| `Types.NewStateLeast` | src/types.rs:27-58 | `State::new()` is the least state under `State::cmp` and the only one `Equal` to it |
| `Types.NewStateHLeast` | src/types.rs:119-126 | `StateH::new()`, with heuristic `i64::MIN`, is least under `StateH::cmp` and converts to `State::new()` |
| `Types.SplitStateDRoundTrip` | src/types.rs:164-183 | `convert_tuple(convert(s, d, r)) == (s, (d, r))`, and `convert` rebuilds any record from its tuple |
| `Types.ConversionsKeepWellAndScore` | src/types.rs:34-39 | `State::convert`, `StateP::convert_state` and `StateD::convert_tuple` give the same state for equal wells and scores |
| `Types.RowValues` | src/types.rs:218 | the rows as the unsigned numbers `{:?}` prints, one per row, which `QueryRoundTrip` reads back |
| `Types.InsertQuery` | src/types.rs:213-228 | the `push_str` sequence builds the prefix, the quoted row list, run id, depth and score separated by `", "`, and `");"` |
| `Types.QueryRoundTrip` | src/types.rs:213-228 | reading the query back gives the rows, run id, depth and score it was built from |
| `Types.Glyphs` | src/types.rs:236-238 | the `chars().map(..)` of the row text: the same length, `'#'` for `'1'` and `' '` for every other character, the newline included |
| `Types.WritePicture` | src/types.rs:232-247 | the row loop writes each row's picture, then the `Heuristic:` and `Score:` lines |
| `Types.RowPictureColumns` | src/types.rs:235-239 | a row below 1024 is 12 characters: ten columns, `'#'` for a set bit, most significant first, then `' '` and a newline |
| `Types.RowsPictureBlocks` | src/types.rs:234-241 | the picture has one 12-character block per row, in row order |
| `Types.Master` | src/types.rs:359-370 | `master` keeps the generation and sets `quiescent`, `parent`, `save` and `print` |
| `Types.Training` | src/types.rs:372-383 | `training` keeps the generation and clears all four flags |
| `Types.Testing` | src/types.rs:385-396 | `testing` has depth `usize::MAX`, generation 0 and `save` false |
| `Types.TestingIsMasterVariant` | src/types.rs:359-396 | `testing()` is `master(0)` with unbounded depth and nothing saved |
| `Types.RunName` | src/types.rs:398-400 | `aeon-{AEON}-gen-{generation}`; `GenerationPathInjective` proves different generations get different names |
| `Types.AeonPath` | src/types.rs:402-404 | `{CHECKPOINTS}/Aeon {AEON}`, the directory every generation directory starts with |
| `Types.GenerationPath` | src/types.rs:406-408 | the aeon directory, then `/Generation {generation}`; `GenerationPathInjective` proves it differs between generations |
| `Types.NeuralNetworkPath` | src/types.rs:410-412 | `Network {generation}.bin` in the generation directory, as `GenerationFilesNest` proves |
| `Types.ReplayPath` | src/types.rs:414-416 | `Replay` in the generation directory, as `GenerationFilesNest` proves |
| `Types.TrainingPath` | src/types.rs:418-420 | `Training` in the generation directory, as `GenerationFilesNest` proves |
| `Types.MovePath` | src/types.rs:422-424 | `move_{depth}.bin` in the replay directory (`ReplayFilesNest`), different for each depth (`DepthPathsInjective`) |
| `Types.ParentPath` | src/types.rs:426-428 | `parent_{depth}.bin` in the replay directory (`ReplayFilesNest`), different for each depth and from every move file (`DepthPathsInjective`, `MoveAndParentPathsDiffer`) |
| `Types.EpochPath` | src/types.rs:430-432 | `epoch_{epoch}.bin` in the training directory (`TrainingFilesNest`), different for each epoch (`EpochPathInjective`) |
| `Types.DataPath` | src/types.rs:434-436 | `all_epochs.bin` in the training directory, as `TrainingFilesNest` proves |
| `Types.GenerationFilesNest` | src/types.rs:406-420 | the network file, replay and training directories lie in the generation directory |
| `Types.ReplayFilesNest` | src/types.rs:414-428 | the move and parent files lie in the replay directory |
| `Types.TrainingFilesNest` | src/types.rs:418-436 | the epoch files and the data file lie in the training directory |
| `Types.GenerationPathInjective` | src/types.rs:398-408 | different generations have different directories and run names |
| `Types.DepthPathsInjective` | src/types.rs:422-428 | different depths have different move files and different parent files |
| `Types.MoveAndParentPathsDiffer` | src/types.rs:422-428 | a move file is never a parent file |
| `Types.EpochPathInjective` | src/types.rs:430-432 | different epochs have different files |

## Left out

- The network heuristics (`network_heuristic_individual`, `network_heuristic`,
  `network_heuristic_loop`). They compute floating-point values through
  `crate::neural`, which is not part of this model, and use hash maps.
- `get_legal`: its result is a random piece. `SingleMove` takes the piece as
  a parameter. The lowest-height computation that `get_legal` discards is
  not modelled.
- `WeightT::new`, `WeightT::to_discrete_network` and
  `StateP::convert_state_h`: they sample random numbers and compute in
  floating point. `StateP`'s `f64` fields are only copied.
- The `Savefile` derives: serialisation through another crate.
- The contents of `crate::constants`, `crate::masks` and `crate::pieces`,
  which are not part of this model.
  - The tables are total functions, so a table index out of range (a panic
    in Rust) is not modelled.
  - `AEON` is given as its `Display` text.
- The analysis scripts: file reading, plotting and process launching.
- Formatter errors: `StatePP::fmt` writing to the formatter is modelled as
  building the whole string, and a failed write is not modelled.
- Integer widths: the source's `u16`, `i32`, `i64` and `usize` are ranges of
  `int`, and `u64` waveforms are sets of bit positions.
  - Overflow is modelled where it can happen:
    - the `u64` shifts drop bits past 63, in every build;
    - `(score*score) as ScoreT` truncates to 16 bits, in every build (`AddScore`);
    - the `u16` score addition at src/emulator.rs:76 wraps (`AddScore`);
    - `height - 1` at src/emulator.rs:64 wraps at height 0 (`PlacedRowAt`).
  - The last two follow release-build semantics. A debug build panics there instead.
- RestingWaveforms: requires that the loop runs at least once, because
  otherwise `waves.len() - 1` underflows. This requires a non-empty
  `EMPTY_MASKS[p]` and well height + 1 below `WELL_HEIGHT`.
- SingleMove: carries the same requirement, for the same reason.
- GetWaveHeight: states the bounds and that the result is a candidate
  height (or `-WELL_LINE`). It does not state that the result is the
  largest candidate the loops visit before their `break`s.
- RowPictureColumns: stated for rows below 1024, the ten columns of the well; `RowPicture` itself takes any `u16`, whose `{:010b}` can be longer.
- RowsPictureBlocks: the same bound on every row.
- Scores: the local five-entry array is built as a sequence value at each
  `return`, not written entry by entry. The value returned is the same.
- StateHEq: the branch `self.score != self.score` can never be taken. The
  model keeps the test and its `return false`, so its contract does not
  depend on the scores.

## Findings

| source | as written | input that shows it | evidently intended | confidence | as-written member | corrected member |
|---|---|---|---|---|---|---|
| src/emulator.rs:172-197 | entry 1 (XOR of the four slice entries) holds placements completing one or three rows; entry 2 (XOR of the pairwise ANDs) holds those completing two or three. So a placement completing three rows is also counted as completing one, and after the early return at line 173 it appears only in entry 1. | slice `[{0}, {0}, {0}, {}]`, `wave = {0}`: `scores` returns `[{}, {0}, {}, {}, {}]` | entry `k` holds exactly the placements completing `k` rows | not executed | `Emulator.ScoresThreeRowsAsOne` (on `Emulator.Scores` / `Emulator.ScoresOf`, which `Emulator.GetWaveHeight` uses, so such a placement adds 1 there, not 3) | `Emulator.ScoresExactEntries` (on `Emulator.ScoresCorrected` / `Emulator.ScoresExact`, used by `Emulator.GetWaveHeightCorrected`) |
| src/types.rs:75 | `if self.score != self.score` compares a score with itself, so `StateH::eq` ignores the scores | `StateH([0], 0, 0)` and `StateH([0], 1, 0)` are equal | compare `self.score` with `other.score` | not executed | `Types.StateHEqIgnoresScore` (on `Types.StateHEq`) | `Types.StateHEqCorrected` |
