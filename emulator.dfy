/**
 * The game emulator: which placements a piece can reach and rest in, what
 * the well looks like after each of them, and how high the stack can get.
 *
 * A placement is a position of the piece (column and rotation); a waveform
 * is a set of placements, one bit of a `u64` each (see `Bits`). The height
 * of a waveform is the index of the row just below its bottom row: a piece
 * at height `h` occupies rows `h - 4` to `h - 1`, and row index 0 is the top
 * of the well.
 */
module Emulator {
  import opened Bits
  import opened Types

  /**
   * The constants and lookup tables of the game (EFF_HEIGHT, WELL_HEIGHT,
   * WELL_LINE, WAVE_SIZE, MAX_ROW, ROTATE_LEFT, ROTATE_RIGHT, EMPTY_MASKS,
   * ROW_MASKS, HEIGHT_MASKS, SCORE_MASKS and PIECE_LIST). Only their shape
   * is assumed, in `Valid`; every result below holds for any contents.
   */
  datatype Tables = Tables(
    effHeight: nat,
    wellHeight: nat,
    wellLine: nat,
    waveSize: nat,
    maxRow: Row,
    rotateLeft: Wave,
    rotateRight: Wave,
    emptyMasks: nat -> Wave,
    rowMasks: (nat, Row, nat) -> Wave,
    heightMasks: (nat, nat) -> Wave,
    heightCount: nat,
    scoreMasks: (nat, Row, nat) -> Wave,
    pieceRows: (nat, nat, nat) -> Row)
  {
    /**
     * The well has rows, a waveform fits in 64 bits, the full row is not
     * the empty row, and every piece has at least four height masks.
     */
    predicate Valid()
    {
      0 < effHeight < 0x1_0000_0000 && waveSize <= 64 && maxRow != 0 && 4 <= heightCount
    }
  }

  function Min(a: int, b: int): int { if a <= b then a else b }

  function Max(a: int, b: int): int { if a >= b then a else b }

  // The four rows a piece can occupy.

  /**
   * `well_slice`: the rows `height - 4` to `height - 1`, where a row above
   * the top reads as empty and a row below the bottom as full.
   */
  function WellSlice(t: Tables, height: nat, well: Well): (s: seq<Row>)
    requires |well| == t.effHeight
    ensures |s| == 4
    ensures forall r | 0 <= r < 4 ::
      s[r] == if height + r < 4 then 0
              else if height + r - 4 >= t.effHeight then t.maxRow
              else well[height + r - 4]
  {
    [ if height <= 3 then 0 else if height - 4 >= t.effHeight then t.maxRow else well[height - 4],
      if height <= 2 then 0 else if height - 3 >= t.effHeight then t.maxRow else well[height - 3],
      if height <= 1 then 0 else if height - 2 >= t.effHeight then t.maxRow else well[height - 2],
      if height <= 0 then 0 else if height - 1 >= t.effHeight then t.maxRow else well[height - 1] ]
  }

  /** At height 0 the piece is wholly above the well: four empty rows. */
  lemma WellSliceAtTop(t: Tables, well: Well)
    requires |well| == t.effHeight
    ensures WellSlice(t, 0, well) == [0, 0, 0, 0]
  {
  }

  /** Inside the well the slice is the four rows themselves. */
  lemma WellSliceInside(t: Tables, height: nat, well: Well)
    requires |well| == t.effHeight && 4 <= height <= t.effHeight
    ensures WellSlice(t, height, well) == well[height - 4..height]
  {
  }

  // The height of the stack.

  /** The number of empty rows at the top of the well. */
  function WellHeight(well: Well): (h: nat)
    ensures h <= |well|
    ensures forall i | 0 <= i < h :: well[i] == 0
    ensures h < |well| ==> well[h] != 0
  {
    if well == [] || well[0] != 0 then 0 else 1 + WellHeight(well[1..])
  }

  /** `get_well_height`. */
  method GetWellHeight(well: Well) returns (height: nat)
    ensures height == WellHeight(well)
    ensures forall i | 0 <= i < height :: well[i] == 0
    ensures height < |well| ==> well[height] != 0
  {
    height := 0;
    while height < |well|
      invariant height <= |well|
      invariant forall i | 0 <= i < height :: well[i] == 0
    {
      if well[height] != 0 {
        break;
      }
      height := height + 1;
    }
    WellHeightUnique(well, height);
  }

  /** The top empty rows and the first occupied row determine the height. */
  lemma {:induction false} WellHeightUnique(well: Well, h: nat)
    requires h <= |well| && (forall i | 0 <= i < h :: well[i] == 0) && (h < |well| ==> well[h] != 0)
    ensures h == WellHeight(well)
    decreases h
  {
    if h > 0 {
      WellHeightUnique(well[1..], h - 1);
    }
  }

  // Reachable placements.

  /** A rotation: the placements in ROTATE_LEFT move up 3 bits, those in ROTATE_RIGHT down 1. */
  function Rotate(t: Tables, w: Wave): Wave
  {
    ShiftLeft(w * t.rotateLeft, 3) + ShiftRight(w * t.rotateRight, 1)
  }

  /** One round of moves from each placement of `w`: stay, shift by 4 bits either way, rotate. */
  function Expand(t: Tables, w: Wave): Wave
  {
    w + ShiftLeft(w, 4) + ShiftRight(w, 4) + Rotate(t, w)
  }

  /** The placements allowed by EMPTY_MASKS and the first `n` ROW_MASKS entries of a slice. */
  function SliceMask(t: Tables, p: nat, slice: seq<Row>, n: nat): Wave
    requires n <= |slice|
  {
    if n == 0 then t.emptyMasks(p) else SliceMask(t, p, slice, n - 1) * t.rowMasks(p, slice[n - 1], n - 1)
  }

  /** The collision mask of piece `p` at `height`. */
  function StepMask(t: Tables, p: nat, height: nat, well: Well): Wave
    requires |well| == t.effHeight
  {
    SliceMask(t, p, WellSlice(t, height, well), 4)
  }

  /** A placement is in the collision mask exactly when every one of its five masks allows it. */
  lemma StepMaskMembers(t: Tables, p: nat, height: nat, well: Well, b: nat)
    requires |well| == t.effHeight
    ensures b in StepMask(t, p, height, well) <==>
      b in t.emptyMasks(p) && forall r | 0 <= r < 4 :: b in t.rowMasks(p, WellSlice(t, height, well)[r], r)
  {
    SliceMaskMembers(t, p, WellSlice(t, height, well), 4, b);
  }

  lemma {:induction false} SliceMaskMembers(t: Tables, p: nat, slice: seq<Row>, n: nat, b: nat)
    requires n <= |slice|
    ensures b in SliceMask(t, p, slice, n) <==>
      b in t.emptyMasks(p) && forall r | 0 <= r < n :: b in t.rowMasks(p, slice[r], r)
    decreases n
  {
    if n > 0 {
      SliceMaskMembers(t, p, slice, n - 1, b);
    }
  }

  /** `f` admits no move, inside `mask`, to a placement outside it. */
  predicate ClosedUnder(t: Tables, f: Wave, mask: Wave)
  {
    Expand(t, f) * mask <= f
  }

  /**
   * `w` is what the placements of `seed` inside `mask` reach by moves
   * inside `mask`: it lies in `mask`, holds them, no move leads out of it,
   * and it is included in every other set with these properties.
   */
  ghost predicate IsClosure(t: Tables, w: Wave, seed: Wave, mask: Wave)
  {
    && w <= mask
    && seed * mask <= w
    && Expand(t, w) * mask == w
    && forall f: Wave :: seed * mask <= f && ClosedUnder(t, f, mask) ==> w <= f
  }

  lemma ExpandGrows(t: Tables, a: Wave)
    ensures a <= Expand(t, a)
  {
  }

  lemma ExpandMonotone(t: Tables, a: Wave, b: Wave)
    requires a <= b
    ensures Expand(t, a) <= Expand(t, b)
  {
    assert ShiftLeft(a, 4) <= ShiftLeft(b, 4);
    assert ShiftRight(a, 4) <= ShiftRight(b, 4);
    assert ShiftLeft(a * t.rotateLeft, 3) <= ShiftLeft(b * t.rotateLeft, 3);
    assert ShiftRight(a * t.rotateRight, 1) <= ShiftRight(b * t.rotateRight, 1);
  }

  /** The closure is unique. */
  lemma ClosureUnique(t: Tables, w1: Wave, w2: Wave, seed: Wave, mask: Wave)
    requires IsClosure(t, w1, seed, mask) && IsClosure(t, w2, seed, mask)
    ensures w1 == w2
  {
    assert ClosedUnder(t, w1, mask) && ClosedUnder(t, w2, mask);
  }

  /** Rounds of moves inside `mask` from `w` until a round adds nothing. */
  function Rounds(t: Tables, w: Wave, mask: Wave): Wave
    decreases mask - w, 0
  {
    var next := Expand(t, w) * mask;
    ExpandGrows(t, w);
    assert next * mask == next;
    if next <= w then w else Closure(t, next, mask)
  }

  /** The placements of `seed` in `mask` and everything they reach inside `mask`. */
  function Closure(t: Tables, seed: Wave, mask: Wave): Wave
    decreases mask - seed * mask, 1
  {
    Rounds(t, seed * mask, mask)
  }

  lemma {:induction false} RoundsReachClosure(t: Tables, w: Wave, seed: Wave, mask: Wave)
    requires w <= mask && seed * mask <= w
    requires forall f: Wave :: seed * mask <= f && ClosedUnder(t, f, mask) ==> w <= f
    ensures IsClosure(t, Rounds(t, w, mask), seed, mask)
    decreases mask - w
  {
    var next := Expand(t, w) * mask;
    ExpandGrows(t, w);
    if !(next <= w) {
      forall f: Wave | seed * mask <= f && ClosedUnder(t, f, mask)
        ensures next <= f
      {
        ExpandMonotone(t, w, f);
      }
      RoundsReachClosure(t, next, seed, mask);
      assert next * mask == next;
    }
  }

  /** `Closure` is the closure. */
  lemma ClosureIsClosure(t: Tables, seed: Wave, mask: Wave)
    ensures IsClosure(t, Closure(t, seed, mask), seed, mask)
  {
    RoundsReachClosure(t, seed * mask, seed, mask);
  }

  /** `waveform_step`: the moves closure of `w_old` inside the collision mask, as a fixpoint loop. */
  method WaveformStep(t: Tables, wOld: Wave, p: nat, height: nat, well: Well) returns (w: Wave)
    requires |well| == t.effHeight
    ensures w == Closure(t, wOld, StepMask(t, p, height, well))
    ensures IsClosure(t, w, wOld, StepMask(t, p, height, well))
  {
    var wellSlice := WellSlice(t, height, well);
    var mask := t.emptyMasks(p);
    for r := 0 to 4
      invariant mask == SliceMask(t, p, wellSlice, r)
    {
      mask := mask * t.rowMasks(p, wellSlice[r], r);
    }
    w := wOld * mask;
    var wNew := w;
    var wSeen := w;
    while wNew != {}
      invariant w <= mask && wSeen == w
      invariant Rounds(t, w, mask) == Closure(t, wOld, mask)
      invariant wNew == {} ==> Expand(t, w) * mask <= w
      decreases mask - wSeen, wNew != {}
    {
      ghost var w0 := w;
      var wRight := ShiftLeft(w, 4);
      var wLeft := ShiftRight(w, 4);
      var wRotate := ShiftLeft(w * t.rotateLeft, 3) + ShiftRight(w * t.rotateRight, 1);
      w := w + wRight;
      w := w + wLeft;
      w := w + wRotate;
      w := w * mask;
      assert w == Expand(t, w0) * mask;
      ExpandGrows(t, w0);
      assert w0 <= w;
      wNew := w - wSeen;
      if wNew == {} {
        forall y | y in w
          ensures y in w0
        {
          assert y !in wNew;
        }
      }
      wSeen := wSeen + w;
    }
    ClosureIsClosure(t, wOld, mask);
  }

  // Resting placements.

  /** The HEIGHT_MASKS entry removed at a height, or nothing from height 4 on. */
  function HeightCut(t: Tables, p: nat, height: nat): Wave
  {
    match height
    case 0 => t.heightMasks(p, 3)
    case 1 => t.heightMasks(p, 2)
    case 2 => t.heightMasks(p, 1)
    case 3 => t.heightMasks(p, 0)
    case _ => {}
  }

  /**
   * Layer `i` of `resting_waveforms`: the closure of EMPTY_MASKS at the
   * stack's height for `i == 0`, and the closure of layer `i - 1` at the
   * `i`-th height above it otherwise.
   */
  function Layer(t: Tables, p: nat, well: Well, i: nat): Wave
    requires |well| == t.effHeight
    decreases i
  {
    var seed := if i == 0 then t.emptyMasks(p) else Layer(t, p, well, i - 1);
    Closure(t, seed, StepMask(t, p, WellHeight(well) + i, well))
  }

  /**
   * Layers `0` to `|raw| - 1`, all but the last one non-empty, each at a
   * height at which the loop of `resting_waveforms` still runs.
   */
  ghost predicate LayersSoFar(t: Tables, p: nat, well: Well, raw: seq<Wave>)
    requires |well| == t.effHeight
  {
    && (forall i | 0 <= i < |raw| :: raw[i] == Layer(t, p, well, i))
    && (forall i | 0 <= i < |raw| - 1 :: raw[i] != {})
    && (|raw| > 0 ==> WellHeight(well) + |raw| < t.wellHeight)
  }

  /**
   * The layers `resting_waveforms` computes before its last pass: at least
   * one, and the loop stops at the first empty layer or when the next
   * height reaches WELL_HEIGHT - 1.
   */
  ghost predicate RestingLayers(t: Tables, p: nat, well: Well, raw: seq<Wave>)
    requires |well| == t.effHeight
  {
    && |raw| >= 1
    && LayersSoFar(t, p, well, raw)
    && (raw[|raw| - 1] == {} || WellHeight(well) + |raw| + 1 >= t.wellHeight)
  }

  /** Layer `i` without the placements its HEIGHT_MASKS entry removes. */
  function Cut(t: Tables, p: nat, well: Well, raw: seq<Wave>, i: nat): Wave
    requires |well| == t.effHeight && i < |raw|
  {
    raw[i] - HeightCut(t, p, WellHeight(well) + i)
  }

  /**
   * What `resting_waveforms` returns for the layers `raw`: one entry per
   * layer, at consecutive heights from the stack's height, each cut layer
   * without the placements of the next cut layer.
   */
  ghost predicate RestingList(t: Tables, p: nat, well: Well, waves: seq<(Wave, nat)>, raw: seq<Wave>)
    requires |well| == t.effHeight
  {
    && RestingLayers(t, p, well, raw)
    && |waves| == |raw|
    && (forall i | 0 <= i < |waves| :: waves[i].1 == WellHeight(well) + i)
    && (forall i | 0 <= i < |waves| - 1 :: waves[i].0 == Cut(t, p, well, raw, i) - Cut(t, p, well, raw, i + 1))
    && waves[|waves| - 1].0 == Cut(t, p, well, raw, |waves| - 1)
  }

  /**
   * `resting_waveforms`. The source computes `waves.len() - 1`, which
   * underflows when the loop never runs; the precondition is exactly that
   * the loop runs at least once.
   */
  method RestingWaveforms(t: Tables, p: nat, well: Well) returns (waves: seq<(Wave, nat)>, ghost raw: seq<Wave>)
    requires |well| == t.effHeight
    requires t.emptyMasks(p) != {} && WellHeight(well) + 1 < t.wellHeight
    ensures RestingList(t, p, well, waves, raw)
    ensures forall i | 0 <= i < |waves| - 1 :: waves[i].0 * waves[i + 1].0 == {}
  {
    var height := GetWellHeight(well);
    waves := [];
    raw := [];
    var w := t.emptyMasks(p);
    while w != {} && height + 1 < t.wellHeight
      invariant height == WellHeight(well) + |raw|
      invariant |raw| == 0 ==> w == t.emptyMasks(p)
      invariant |raw| > 0 ==> w == raw[|raw| - 1]
      invariant LayersSoFar(t, p, well, raw) && CutsSoFar(t, p, well, raw, waves)
      decreases t.wellHeight - height
    {
      ghost var seed := w;
      w := WaveformStep(t, w, p, height, well);
      var hMask;
      match height {
        case 0 => hMask := t.heightMasks(p, 3);
        case 1 => hMask := t.heightMasks(p, 2);
        case 2 => hMask := t.heightMasks(p, 1);
        case 3 => hMask := t.heightMasks(p, 0);
        case _ => hMask := {};
      }
      RestingRound(t, p, well, raw, waves, seed, w, height, hMask);
      raw := raw + [w];
      waves := waves + [(w - hMask, height)];
      height := height + 1;
    }
    var cut := waves;
    waves := SubtractNext(cut);
    RestingListOf(t, p, well, raw, cut, waves);
    forall i | 0 <= i < |waves| - 1
      ensures waves[i].0 * waves[i + 1].0 == {}
    {
      RestingListDisjoint(t, p, well, waves, raw, i);
    }
  }

  /** Beside each layer, the layer without its HEIGHT_MASKS entry, and its height. */
  ghost predicate CutsSoFar(t: Tables, p: nat, well: Well, raw: seq<Wave>, cut: seq<(Wave, nat)>)
    requires |well| == t.effHeight
  {
    && |cut| == |raw|
    && (forall i | 0 <= i < |raw| :: cut[i] == (Cut(t, p, well, raw, i), WellHeight(well) + i))
  }

  /** One more round of the loop of `resting_waveforms` keeps `LayersSoFar` and `CutsSoFar`. */
  lemma RestingRound(t: Tables, p: nat, well: Well, raw: seq<Wave>, cut: seq<(Wave, nat)>, seed: Wave, w: Wave,
                     height: nat, hMask: Wave)
    requires |well| == t.effHeight && LayersSoFar(t, p, well, raw) && CutsSoFar(t, p, well, raw, cut)
    requires seed == if |raw| == 0 then t.emptyMasks(p) else raw[|raw| - 1]
    requires height == WellHeight(well) + |raw| && hMask == HeightCut(t, p, height)
    requires seed != {} && height + 1 < t.wellHeight
    requires w == Closure(t, seed, StepMask(t, p, height, well))
    ensures LayersSoFar(t, p, well, raw + [w])
    ensures CutsSoFar(t, p, well, raw + [w], cut + [(w - hMask, height)])
  {
    var raw' := raw + [w];
    var cut' := cut + [(w - hMask, height)];
    forall i | 0 <= i < |raw'|
      ensures raw'[i] == Layer(t, p, well, i)
      ensures cut'[i] == (Cut(t, p, well, raw', i), WellHeight(well) + i)
    {
      if i < |raw| {
        assert raw'[i] == raw[i] && cut'[i] == cut[i];
      }
    }
    forall i | 0 <= i < |raw'| - 1
      ensures raw'[i] != {}
    {
      assert raw'[i] == raw[i];
      if i == |raw| - 1 {
        assert raw[i] == seed;
      }
    }
  }

  /** The last pass of `resting_waveforms`: each waveform loses the placements of the next one. */
  method SubtractNext(cut: seq<(Wave, nat)>) returns (waves: seq<(Wave, nat)>)
    requires |cut| >= 1
    ensures |waves| == |cut|
    ensures forall j | 0 <= j < |cut| - 1 :: waves[j] == (cut[j].0 - cut[j + 1].0, cut[j].1)
    ensures waves[|cut| - 1] == cut[|cut| - 1]
  {
    waves := cut;
    for i := 0 to |waves| - 1
      invariant |waves| == |cut|
      invariant forall j | 0 <= j < i :: waves[j] == (cut[j].0 - cut[j + 1].0, cut[j].1)
      invariant forall j | i <= j < |waves| :: waves[j] == cut[j]
    {
      waves := waves[i := (waves[i].0 - waves[i + 1].0, waves[i].1)];
    }
  }

  /** The last pass turns the cut layers into the resting list. */
  lemma RestingListOf(t: Tables, p: nat, well: Well, raw: seq<Wave>, cut: seq<(Wave, nat)>, waves: seq<(Wave, nat)>)
    requires |well| == t.effHeight && RestingLayers(t, p, well, raw)
    requires CutsSoFar(t, p, well, raw, cut)
    requires |waves| == |cut|
    requires forall j | 0 <= j < |cut| - 1 :: waves[j] == (cut[j].0 - cut[j + 1].0, cut[j].1)
    requires waves[|cut| - 1] == cut[|cut| - 1]
    ensures RestingList(t, p, well, waves, raw)
  {
    forall i | 0 <= i < |waves|
      ensures waves[i].1 == WellHeight(well) + i
    {
      if i < |waves| - 1 {
        assert waves[i] == (cut[i].0 - cut[i + 1].0, cut[i].1);
      }
    }
  }

  /** Entries next to each other in the resting list share no placement and are one row apart. */
  lemma RestingListDisjoint(t: Tables, p: nat, well: Well, waves: seq<(Wave, nat)>, raw: seq<Wave>, i: nat)
    requires |well| == t.effHeight && RestingList(t, p, well, waves, raw) && i + 1 < |waves|
    ensures waves[i].0 * waves[i + 1].0 == {}
    ensures waves[i + 1].1 == waves[i].1 + 1
  {
    var next := Cut(t, p, well, raw, i + 1);
    assert waves[i].0 == Cut(t, p, well, raw, i) - next;
    assert waves[i + 1].0 <= next by {
      if i + 2 < |waves| {
        assert waves[i + 1].0 == next - Cut(t, p, well, raw, i + 2);
      } else {
        assert waves[i + 1].0 == next;
      }
    }
    forall y | y in waves[i + 1].0
      ensures y !in waves[i].0
    {
      assert y in next;
    }
    assert waves[i].1 == WellHeight(well) + i && waves[i + 1].1 == WellHeight(well) + i + 1;
  }

  /** Every layer is the closure of the one before it, as `IsClosure` states. */
  lemma RestingLayersAreClosures(t: Tables, p: nat, well: Well, raw: seq<Wave>, i: nat)
    requires |well| == t.effHeight && RestingLayers(t, p, well, raw) && i < |raw|
    ensures IsClosure(t, raw[i], if i == 0 then t.emptyMasks(p) else raw[i - 1],
                      StepMask(t, p, WellHeight(well) + i, well))
  {
    ClosureIsClosure(t, if i == 0 then t.emptyMasks(p) else raw[i - 1], StepMask(t, p, WellHeight(well) + i, well));
  }

  // Locking a placement.

  /** `PIECE_LIST[p][i]`: the four rows of the piece in placement list entry `i`. */
  function PieceSlice(t: Tables, p: nat, i: nat): (s: seq<Row>)
    ensures |s| == 4
  {
    [t.pieceRows(p, i, 0), t.pieceRows(p, i, 1), t.pieceRows(p, i, 2), t.pieceRows(p, i, 3)]
  }

  /** The well with the piece OR-ed into rows `height - 4` to `height - 1`, where they exist. */
  function Placed(well: Well, slice: seq<Row>, height: nat): (w: Well)
    requires |slice| == 4
    ensures |w| == |well|
  {
    seq(|well|, row requires 0 <= row < |well| => PlacedRow(well, slice, height, row))
  }

  /** Row `row` of the well with the piece placed at `height`. */
  function PlacedRow(well: Well, slice: seq<Row>, height: nat, row: nat): Row
    requires |slice| == 4 && row < |well|
  {
    if height - 4 <= row < height then RowOr(well[row], slice[row - height + 4]) else well[row]
  }

  function CountFull(rows: seq<Row>, full: Row): (k: nat)
    ensures k <= |rows|
  {
    if rows == [] then 0 else (if rows[0] == full then 1 else 0) + CountFull(rows[1..], full)
  }

  /** The rows that are not full, in their order. */
  function KeepRows(rows: seq<Row>, full: Row): (kept: seq<Row>)
    ensures |kept| + CountFull(rows, full) == |rows|
    ensures forall i | 0 <= i < |kept| :: kept[i] != full
  {
    if rows == [] then [] else (if rows[0] == full then [] else [rows[0]]) + KeepRows(rows[1..], full)
  }

  /** Full rows removed, the rest moved down, empty rows added at the top. */
  function Cleared(rows: seq<Row>, full: Row): (w: Well)
    ensures |w| == |rows|
  {
    Zeros(CountFull(rows, full)) + KeepRows(rows, full)
  }

  function Zeros(n: nat): (z: seq<Row>)
    ensures |z| == n
  {
    seq(n, _ => 0)
  }

  /** `old + (k * k) as u16` in `u16` arithmetic, wrapping on overflow as a release build does. */
  function AddScore(before: Score, k: nat): (s: Score)
    ensures before + k * k < 0x1_0000 ==> s == before + k * k
  {
    (before + (k * k) % 0x1_0000) % 0x1_0000
  }

  /** The state after locking the piece with rows `slice` at `height`. */
  function Lock(t: Tables, state: State, slice: seq<Row>, height: nat): State
    requires |slice| == 4
  {
    var placed := Placed(state.well, slice, height);
    State(Cleared(placed, t.maxRow), AddScore(state.score, CountFull(placed, t.maxRow)))
  }

  lemma {:induction false} CountFullAppend(a: seq<Row>, b: seq<Row>, full: Row)
    ensures CountFull(a + b, full) == CountFull(a, full) + CountFull(b, full)
    ensures KeepRows(a + b, full) == KeepRows(a, full) + KeepRows(b, full)
    decreases |a|
  {
    if a == [] {
      assert a + b == b;
    } else {
      assert (a + b)[0] == a[0];
      assert (a + b)[1..] == a[1..] + b;
      CountFullAppend(a[1..], b, full);
    }
  }

  lemma KeepRowsStep(rows: seq<Row>, full: Row, r: nat)
    requires r < |rows|
    ensures CountFull(rows[r..], full) == (if rows[r] == full then 1 else 0) + CountFull(rows[r + 1..], full)
    ensures KeepRows(rows[r..], full) == (if rows[r] == full then [] else [rows[r]]) + KeepRows(rows[r + 1..], full)
  {
    assert rows[r..][1..] == rows[r + 1..];
  }

  lemma {:induction false} CountFullNone(rows: seq<Row>, full: Row)
    requires forall i | 0 <= i < |rows| :: rows[i] != full
    ensures CountFull(rows, full) == 0 && KeepRows(rows, full) == rows
    decreases |rows|
  {
    if rows != [] {
      CountFullNone(rows[1..], full);
    }
  }

  /**
   * Row `r`, if not full, ends up `CountFull(rows[r + 1..])` rows lower:
   * moved down past every full row below it.
   */
  lemma ClearedMovesRow(rows: seq<Row>, full: Row, r: nat)
    requires r < |rows| && rows[r] != full
    ensures r + CountFull(rows[r + 1..], full) < |rows|
    ensures Cleared(rows, full)[r + CountFull(rows[r + 1..], full)] == rows[r]
  {
    assert rows == rows[..r] + ([rows[r]] + rows[r + 1..]);
    CountFullAppend(rows[..r], [rows[r]] + rows[r + 1..], full);
    CountFullAppend([rows[r]], rows[r + 1..], full);
    assert KeepRows([rows[r]], full) == [rows[r]];
    var k := CountFull(rows, full);
    var before := KeepRows(rows[..r], full);
    assert KeepRows(rows, full) == before + ([rows[r]] + KeepRows(rows[r + 1..], full));
    assert |before| + CountFull(rows[..r], full) == r;
    assert Cleared(rows, full)[k + |before|] == KeepRows(rows, full)[|before|];
  }

  /**
   * What clearing does to a well: it keeps its height, has no full row
   * afterwards (when the full row is not the empty row), has as many empty
   * rows on top as there were full rows, and moves every other row down by
   * the number of full rows below it.
   */
  lemma ClearedEffect(rows: seq<Row>, full: Row)
    requires full != 0
    ensures |Cleared(rows, full)| == |rows|
    ensures forall i | 0 <= i < |rows| :: Cleared(rows, full)[i] != full
    ensures forall i | 0 <= i < CountFull(rows, full) :: Cleared(rows, full)[i] == 0
    ensures forall r | 0 <= r < |rows| && rows[r] != full ::
      r + CountFull(rows[r + 1..], full) < |rows| && Cleared(rows, full)[r + CountFull(rows[r + 1..], full)] == rows[r]
  {
    var k := CountFull(rows, full);
    forall i | 0 <= i < |rows|
      ensures Cleared(rows, full)[i] != full
    {
      if i >= k {
        assert Cleared(rows, full)[i] == KeepRows(rows, full)[i - k];
      }
    }
    forall r | 0 <= r < |rows| && rows[r] != full
      ensures r + CountFull(rows[r + 1..], full) < |rows|
      ensures Cleared(rows, full)[r + CountFull(rows[r + 1..], full)] == rows[r]
    {
      ClearedMovesRow(rows, full, r);
    }
  }

  /**
   * Locking a piece leaves the well with the placed piece's full rows
   * cleared (see `ClearedEffect`), and adds `k * k` to the score for `k`
   * full rows, exactly when that stays below 2^16.
   */
  lemma LockEffect(t: Tables, state: State, slice: seq<Row>, height: nat)
    requires t.Valid() && |slice| == 4
    ensures Lock(t, state, slice, height).well == Cleared(Placed(state.well, slice, height), t.maxRow)
    ensures var k := CountFull(Placed(state.well, slice, height), t.maxRow);
      state.score + k * k < 0x1_0000 ==> Lock(t, state, slice, height).score == state.score + k * k
    ensures forall i | 0 <= i < |state.well| :: Lock(t, state, slice, height).well[i] != t.maxRow
  {
    ClearedEffect(Placed(state.well, slice, height), t.maxRow);
  }

  /** Rows that are full only between `lo` and `hi` number at most `hi - lo`. */
  lemma CountFullWindow(rows: seq<Row>, full: Row, lo: nat, hi: nat)
    requires lo <= hi <= |rows|
    requires forall i | 0 <= i < lo :: rows[i] != full
    requires forall i | hi <= i < |rows| :: rows[i] != full
    ensures CountFull(rows, full) <= hi - lo
  {
    assert rows == rows[..lo] + rows[lo..hi] + rows[hi..];
    CountFullAppend(rows[..lo] + rows[lo..hi], rows[hi..], full);
    CountFullAppend(rows[..lo], rows[lo..hi], full);
    CountFullNone(rows[..lo], full);
    CountFullNone(rows[hi..], full);
  }

  /** A well with no full row loses at most four rows to one piece. */
  lemma LockClearsAtMostFour(t: Tables, state: State, slice: seq<Row>, height: nat)
    requires |slice| == 4 && forall i | 0 <= i < |state.well| :: state.well[i] != t.maxRow
    ensures CountFull(Placed(state.well, slice, height), t.maxRow) <= 4
  {
    var placed := Placed(state.well, slice, height);
    var n := |placed|;
    var lo := Min(Max(height - 4, 0), n);
    var hi := Min(height, n);
    forall i | 0 <= i < n && !(lo <= i < hi)
      ensures placed[i] != t.maxRow
    {
      assert placed[i] == PlacedRow(state.well, slice, height, i) == state.well[i];
    }
    CountFullWindow(placed, t.maxRow, lo, hi);
  }

  // Placements of a waveform, one locked state each.

  /** The set bits of `wave` among bits 0 to `n - 1`, lowest first. */
  function Placements(wave: Wave, n: nat): (bs: seq<nat>)
    ensures forall j | 0 <= j < |bs| :: bs[j] < n && bs[j] in wave
    decreases n
  {
    if n == 0 then [] else Placements(wave, n - 1) + (if n - 1 in wave then [n - 1] else [])
  }

  /** `Placements` lists each set bit below `n` once, in increasing order. */
  lemma {:induction false} PlacementsAreTheBits(wave: Wave, n: nat)
    ensures forall b :: b in Placements(wave, n) <==> b < n && b in wave
    ensures forall j, k | 0 <= j < k < |Placements(wave, n)| :: Placements(wave, n)[j] < Placements(wave, n)[k]
    decreases n
  {
    if n > 0 {
      PlacementsAreTheBits(wave, n - 1);
    }
  }

  /**
   * The states for the set bits of `wave` below `n`, lowest bit first;
   * bit `b` takes the piece of list entry `WAVE_SIZE - 1 - b`.
   */
  function LocksBelow(t: Tables, p: nat, state: State, wave: Wave, height: nat, n: nat): seq<State>
    requires n <= t.waveSize
  {
    if n == 0 then []
    else
      var last := if n - 1 in wave then [Lock(t, state, PieceSlice(t, p, t.waveSize - n), height)] else [];
      LocksBelow(t, p, state, wave, height, n - 1) + last
  }

  /** The states `waveform_to_wells` produces for a waveform. */
  function WaveLocks(t: Tables, p: nat, state: State, wave: Wave, height: nat): seq<State>
  {
    LocksBelow(t, p, state, wave, height, t.waveSize)
  }

  /** One state per placement, in the order of `Placements`. */
  lemma {:induction false} LocksBelowPlacements(t: Tables, p: nat, state: State, wave: Wave, height: nat, n: nat)
    requires n <= t.waveSize
    ensures |LocksBelow(t, p, state, wave, height, n)| == |Placements(wave, n)|
    ensures forall j | 0 <= j < |Placements(wave, n)| ::
      LocksBelow(t, p, state, wave, height, n)[j]
        == Lock(t, state, PieceSlice(t, p, t.waveSize - 1 - Placements(wave, n)[j]), height)
    decreases n
  {
    if n > 0 {
      LocksBelowPlacements(t, p, state, wave, height, n - 1);
    }
  }

  /** `wave` after `k` of the loop's one-bit right shifts. */
  function Shifted(wave: Wave, k: nat): Wave
  {
    if k == 0 then wave else ShiftRight(wave, k)
  }

  /** The lowest bit after `k` shifts is bit `k` of the waveform; one more shift gives `k + 1` shifts. */
  lemma ShiftedStep(wave: Wave, k: nat)
    requires k < 64
    ensures 0 in Shifted(wave, k) <==> k in wave
    ensures ShiftRight(Shifted(wave, k), 1) == Shifted(wave, k + 1)
  {
    if k > 0 {
      assert MovedDown(wave, k, 0) <==> k in wave;
      forall y | y in ShiftRight(ShiftRight(wave, k), 1)
        ensures y in ShiftRight(wave, k + 1)
      {
        assert MovedDown(ShiftRight(wave, k), 1, y);
      }
    }
  }

  /** The source's row test, with `top` the wrapped `height - 1`, picks the rows `Placed` ORs into. */
  lemma PlacedRowAt(well: Well, slice: seq<Row>, height: nat, top: nat, row: nat)
    requires |slice| == 4 && row < |well| < 0x1_0000_0000
    requires top == if height >= 1 then height - 1 else USIZE_MAX
    ensures Placed(well, slice, height)[row]
      == if row <= top && row + 4 > top then RowOr(well[row], slice[3 - (top - row)]) else well[row]
  {
  }

  /**
   * The body of the loop of `waveform_to_wells` for one set bit: ORs the
   * piece into the well row by row from the bottom, counts the full rows
   * and copies every other row down past them. The source's `height - 1`
   * wraps to `usize::MAX` at height 0 in a release build, so that no row
   * receives the piece there.
   */
  method LockPlacement(t: Tables, state: State, slice: seq<Row>, height: nat) returns (locked: State)
    requires t.Valid() && |state.well| == t.effHeight && |slice| == 4
    ensures locked == Lock(t, state, slice, height)
  {
    var well := state.well;
    var newWell := new Row[t.effHeight](_ => 0);
    var score := 0;
    ghost var placed := Placed(well, slice, height);
    var top := if height >= 1 then height - 1 else USIZE_MAX;
    for row := t.effHeight downto 0
      invariant score == CountFull(placed[row..], t.maxRow)
      invariant newWell[..] == Compacted(placed, t.maxRow, row)
    {
      var newVal := well[row];
      if row <= top && row + 4 > top {
        newVal := RowOr(newVal, slice[3 - (top - row)]);
      }
      PlacedRowAt(well, slice, height, top, row);
      CompactStep(placed, t.maxRow, row);
      if newVal == t.maxRow {
        score := score + 1;
      } else {
        newWell[row + score] := newVal;
      }
    }
    assert placed[0..] == placed;
    locked := State(newWell[..], AddScore(state.score, score));
  }

  /** The rows of the new well once rows `row` and above of `rows` have been copied down. */
  function Compacted(rows: seq<Row>, full: Row, row: nat): (w: seq<Row>)
    requires row <= |rows|
    ensures |w| == |rows|
  {
    Zeros(row + CountFull(rows[row..], full)) + KeepRows(rows[row..], full)
  }

  /** Copying row `row` down: nothing changes for a full row, otherwise it lands on the highest empty row. */
  lemma CompactStep(rows: seq<Row>, full: Row, row: nat)
    requires row < |rows|
    ensures CountFull(rows[row..], full) == (if rows[row] == full then 1 else 0) + CountFull(rows[row + 1..], full)
    ensures rows[row] == full ==> Compacted(rows, full, row) == Compacted(rows, full, row + 1)
    ensures rows[row] != full ==>
      Compacted(rows, full, row) == Compacted(rows, full, row + 1)[row + CountFull(rows[row + 1..], full) := rows[row]]
  {
    KeepRowsStep(rows, full, row);
    var n := row + CountFull(rows[row + 1..], full);
    if rows[row] != full {
      assert Zeros(n + 1) == Zeros(n) + [0];
    }
  }

  /**
   * `waveform_to_wells`: one locked state per set bit among the low
   * WAVE_SIZE bits of `wave`, lowest bit first.
   */
  method WaveformToWells(t: Tables, wave: Wave, height: nat, p: nat, state: State) returns (wells: seq<State>)
    requires t.Valid() && |state.well| == t.effHeight
    ensures wells == WaveLocks(t, p, state, wave, height)
  {
    wells := [];
    var w := wave;
    for i := t.waveSize downto 0
      invariant w == Shifted(wave, t.waveSize - i)
      invariant wells == LocksBelow(t, p, state, wave, height, t.waveSize - i)
    {
      ShiftedStep(wave, t.waveSize - 1 - i);
      if 0 in w {
        var locked := LockPlacement(t, state, PieceSlice(t, p, i), height);
        wells := wells + [locked];
      }
      w := ShiftRight(w, 1);
    }
  }

  // One move.

  /** The states for every entry of a resting list, in list order. */
  function AllLocks(t: Tables, p: nat, state: State, waves: seq<(Wave, nat)>): seq<State>
  {
    if waves == [] then []
    else
      var last := waves[|waves| - 1];
      AllLocks(t, p, state, waves[..|waves| - 1]) + WaveLocks(t, p, state, last.0, last.1)
  }

  /**
   * `single_move` for a given piece (the source picks it at random): every
   * state reachable by resting the piece anywhere, waveform by waveform.
   */
  method SingleMove(t: Tables, piece: nat, state: State)
    returns (toReturn: seq<State>, ghost waves: seq<(Wave, nat)>, ghost raw: seq<Wave>)
    requires t.Valid() && |state.well| == t.effHeight
    requires t.emptyMasks(piece) != {} && WellHeight(state.well) + 1 < t.wellHeight
    ensures RestingList(t, piece, state.well, waves, raw)
    ensures forall i | 0 <= i < |waves| - 1 :: waves[i].0 * waves[i + 1].0 == {}
    ensures toReturn == AllLocks(t, piece, state, waves)
  {
    var allWaves;
    allWaves, raw := RestingWaveforms(t, piece, state.well);
    waves := allWaves;
    toReturn := [];
    for k := 0 to |allWaves|
      invariant toReturn == AllLocks(t, piece, state, allWaves[..k])
    {
      var wList := WaveformToWells(t, allWaves[k].0, allWaves[k].1, piece, state);
      assert allWaves[..k + 1][..k] == allWaves[..k];
      toReturn := toReturn + wList;
    }
    assert allWaves[..|allWaves|] == allWaves;
  }

  // How many rows each placement completes.

  /** The placements of `wave` that fill row `height - 4 + i`, for the four rows of the slice. */
  function ScoreSliceOf(t: Tables, wave: Wave, height: nat, p: nat, well: Well): (s: seq<Wave>)
    requires |well| == t.effHeight
    ensures |s| == 4 && forall i | 0 <= i < 4 :: s[i] <= wave
  {
    var ws := WellSlice(t, height, well);
    [t.scoreMasks(p, ws[0], 0) * wave, t.scoreMasks(p, ws[1], 1) * wave,
     t.scoreMasks(p, ws[2], 2) * wave, t.scoreMasks(p, ws[3], 3) * wave]
  }

  /** `score_slice`. */
  method ScoreSlice(t: Tables, wave: Wave, height: nat, p: nat, well: Well) returns (slice: seq<Wave>)
    requires |well| == t.effHeight
    ensures slice == ScoreSliceOf(t, wave, height, p, well)
  {
    var wellSlice := WellSlice(t, height, well);
    var a := new Wave[4](_ => {});
    for i := 0 to 4
      invariant forall j | 0 <= j < i :: a[j] == t.scoreMasks(p, wellSlice[j], j) * wave
    {
      a[i] := t.scoreMasks(p, wellSlice[i], i) * wave;
    }
    slice := a[..];
  }

  /** The number of the four slice entries that hold placement `b`. */
  function Hits(s: seq<Wave>, b: nat): nat
    requires |s| == 4
  {
    (if b in s[0] then 1 else 0) + (if b in s[1] then 1 else 0)
    + (if b in s[2] then 1 else 0) + (if b in s[3] then 1 else 0)
  }

  function Xor(a: Wave, b: Wave): Wave { (a - b) + (b - a) }

  /** The XOR of the four entries: the placements in an odd number of them. */
  function Odd(s: seq<Wave>): Wave
    requires |s| == 4
  {
    Xor(Xor(Xor(s[0], s[1]), s[2]), s[3])
  }

  /** The XOR of the six pairwise ANDs. */
  function PairsOdd(s: seq<Wave>): Wave
    requires |s| == 4
  {
    Xor(Xor(Xor(Xor(Xor(s[0] * s[1], s[0] * s[2]), s[0] * s[3]), s[1] * s[2]), s[1] * s[3]), s[2] * s[3])
  }

  /** The XOR of the four triple ANDs. */
  function TriplesOdd(s: seq<Wave>): Wave
    requires |s| == 4
  {
    Xor(Xor(Xor(s[0] * s[1] * s[2], s[0] * s[1] * s[3]), s[0] * s[2] * s[3]), s[1] * s[2] * s[3])
  }

  /** The placements in none of the four entries. */
  function NoneOf(s: seq<Wave>, wave: Wave): Wave
    requires |s| == 4
  {
    wave - s[0] - s[1] - s[2] - s[3]
  }

  /** What each combination of the four entries holds, by the number of entries a placement is in. */
  lemma HitsMembers(s: seq<Wave>, wave: Wave, b: nat)
    requires |s| == 4
    ensures b in NoneOf(s, wave) <==> b in wave && Hits(s, b) == 0
    ensures b in Odd(s) <==> Hits(s, b) % 2 == 1
    ensures b in PairsOdd(s) <==> 2 <= Hits(s, b) <= 3
    ensures b in TriplesOdd(s) <==> Hits(s, b) == 3
    ensures b in s[0] * s[1] * s[2] * s[3] <==> Hits(s, b) == 4
  {
  }

  /** The entries before `k` do not yet cover the waveform, so `scores` goes on to compute entry `k`. */
  predicate Reaches(r: seq<Wave>, wave: Wave, k: nat)
    requires k <= |r|
  {
    forall j | 1 <= j <= k :: Union(r, j) != wave
  }

  /** The union of the first `n` entries. */
  function Union(r: seq<Wave>, n: nat): Wave
    requires n <= |r|
  {
    if n == 0 then {} else Union(r, n - 1) + r[n - 1]
  }

  lemma {:induction false} UnionMember(r: seq<Wave>, n: nat, b: nat)
    requires n <= |r|
    ensures b in Union(r, n) <==> exists i | 0 <= i < n :: b in r[i]
    decreases n
  {
    if n > 0 {
      UnionMember(r, n - 1, b);
    }
  }

  /**
   * The early returns of `scores`: `e` holds the five combinations of the
   * slice in the order they are computed; entry 0 is always kept, and
   * each later one only while the entries before it do not yet cover the
   * waveform, the rest being left at zero.
   */
  function EarlyReturns(e: seq<Wave>, wave: Wave): (r: seq<Wave>)
    requires |e| == 5
    ensures |r| == 5
  {
    if e[0] == wave then [e[0], {}, {}, {}, {}]
    else if e[1] + e[0] == wave then [e[0], e[1], {}, {}, {}]
    else if e[2] + e[1] + e[0] == wave then [e[0], e[1], e[2], {}, {}]
    else if e[3] + e[2] + e[1] + e[0] == wave then [e[0], e[1], e[2], e[3], {}]
    else e
  }

  /** Entry 0 is always the first combination, and entry `k` is combination `k` exactly when `scores` reaches it. */
  lemma EarlyReturnsShape(e: seq<Wave>, wave: Wave)
    requires |e| == 5
    ensures EarlyReturns(e, wave)[0] == e[0]
    ensures forall k | 1 <= k < 5 ::
      EarlyReturns(e, wave)[k] == if Reaches(EarlyReturns(e, wave), wave, k) then e[k] else {}
  {
    var r := EarlyReturns(e, wave);
    assert Union(r, 1) == r[0];
    assert Union(r, 2) == r[0] + r[1];
    assert Union(r, 3) == r[0] + r[1] + r[2];
    assert Union(r, 4) == r[0] + r[1] + r[2] + r[3];
  }

  /** The five combinations `scores` computes, in order. */
  function Candidates(s: seq<Wave>, wave: Wave): (e: seq<Wave>)
    requires |s| == 4
    ensures |e| == 5
  {
    [NoneOf(s, wave), Odd(s) * wave, PairsOdd(s) * wave, TriplesOdd(s) * wave, s[0] * s[1] * s[2] * s[3] * wave]
  }

  /** The five entries `scores` returns for score slice `s`. */
  function ScoresOf(s: seq<Wave>, wave: Wave): (r: seq<Wave>)
    requires |s| == 4
    ensures |r| == 5
  {
    EarlyReturns(Candidates(s, wave), wave)
  }

  /** `scores` as written. */
  method Scores(t: Tables, wave: Wave, height: nat, p: nat, well: Well) returns (score: seq<Wave>)
    requires |well| == t.effHeight
    ensures score == ScoresOf(ScoreSliceOf(t, wave, height, p, well), wave)
  {
    var s := ScoreSlice(t, wave, height, p, well);
    var s0 := wave - s[0] - s[1] - s[2] - s[3];
    if s0 == wave {
      return [s0, {}, {}, {}, {}];
    }
    var s1 := Odd(s) * wave;
    if s1 + s0 == wave {
      return [s0, s1, {}, {}, {}];
    }
    var s2 := PairsOdd(s) * wave;
    if s2 + s1 + s0 == wave {
      return [s0, s1, s2, {}, {}];
    }
    var s3 := TriplesOdd(s) * wave;
    if s3 + s2 + s1 + s0 == wave {
      return [s0, s1, s2, s3, {}];
    }
    score := [s0, s1, s2, s3, s[0] * s[1] * s[2] * s[3] * wave];
  }

  /**
   * What `scores` computes, placement by placement: entry 0 holds the
   * placements completing no row; once reached, entry 1 those completing
   * an odd number (one or three), entry 2 those completing two or three,
   * entry 3 those completing three and entry 4 those completing four; an
   * entry after an early return is empty.
   */
  lemma ScoresOfEntries(s: seq<Wave>, wave: Wave, b: nat)
    requires |s| == 4
    ensures forall k | 0 <= k < 5 :: ScoresOf(s, wave)[k] <= wave
    ensures b in ScoresOf(s, wave)[0] <==> b in wave && Hits(s, b) == 0
    ensures Reaches(ScoresOf(s, wave), wave, 1) ==> (b in ScoresOf(s, wave)[1] <==> b in wave && Hits(s, b) % 2 == 1)
    ensures Reaches(ScoresOf(s, wave), wave, 2) ==> (b in ScoresOf(s, wave)[2] <==> b in wave && 2 <= Hits(s, b) <= 3)
    ensures Reaches(ScoresOf(s, wave), wave, 3) ==> (b in ScoresOf(s, wave)[3] <==> b in wave && Hits(s, b) == 3)
    ensures Reaches(ScoresOf(s, wave), wave, 4) ==> (b in ScoresOf(s, wave)[4] <==> b in wave && Hits(s, b) == 4)
    ensures forall k | 1 <= k < 5 :: !Reaches(ScoresOf(s, wave), wave, k) ==> ScoresOf(s, wave)[k] == {}
  {
    EarlyReturnsShape(Candidates(s, wave), wave);
    HitsMembers(s, wave, b);
  }

  /** A placement completing three rows is reported in entry 1, as if it completed one. */
  lemma ScoresThreeRowsAsOne()
    ensures Hits([{0}, {0}, {0}, {}], 0) == 3
    ensures ScoresOf([{0}, {0}, {0}, {}], {0}) == [{}, {0}, {}, {}, {}]
  {
    var s: seq<Wave> := [{0}, {0}, {0}, {}];
    assert NoneOf(s, {0}) == {} by { assert 0 !in NoneOf(s, {0}); }
    assert Xor(s[0], s[1]) == {};
    assert Xor(Xor(s[0], s[1]), s[2]) == {0};
    assert Odd(s) == {0};
    assert NoneOf(s, {0}) != {0};
    assert Odd(s) * {0} + NoneOf(s, {0}) == {0};
    assert Odd(s) * {0} == {0};
  }

  /** The combinations of corrected `scores`: entry 1 odd but not pair counts, entry 2 pair but not odd counts. */
  function CandidatesExact(s: seq<Wave>, wave: Wave): (e: seq<Wave>)
    requires |s| == 4
    ensures |e| == 5
  {
    [NoneOf(s, wave), (Odd(s) - PairsOdd(s)) * wave, (PairsOdd(s) - Odd(s)) * wave, TriplesOdd(s) * wave,
     s[0] * s[1] * s[2] * s[3] * wave]
  }

  /** Corrected `scores`: the same early returns over the corrected combinations. */
  function ScoresExact(s: seq<Wave>, wave: Wave): (r: seq<Wave>)
    requires |s| == 4
    ensures |r| == 5
  {
    EarlyReturns(CandidatesExact(s, wave), wave)
  }

  /** Entry `k` of the corrected scores is exactly the placements of `wave` completing `k` rows. */
  lemma ScoresExactEntries(s: seq<Wave>, wave: Wave, b: nat, k: nat)
    requires |s| == 4 && k < 5
    ensures b in ScoresExact(s, wave)[k] <==> b in wave && Hits(s, b) == k
  {
    var e := CandidatesExact(s, wave);
    var r := ScoresExact(s, wave);
    EarlyReturnsShape(e, wave);
    HitsMembers(s, wave, b);
    assert forall i | 0 <= i < 5 :: b in e[i] <==> b in wave && Hits(s, b) == i;
    if k > 0 && !Reaches(r, wave, k) && b in wave {
      var j :| 1 <= j <= k && Union(r, j) == wave;
      UnionMember(r, j, b);
      var i :| 0 <= i < j && b in r[i];
      assert b in e[i];
    }
  }

  /** `scores` with the corrected entries 1 and 2. */
  method ScoresCorrected(t: Tables, wave: Wave, height: nat, p: nat, well: Well) returns (score: seq<Wave>)
    requires |well| == t.effHeight
    ensures score == ScoresExact(ScoreSliceOf(t, wave, height, p, well), wave)
  {
    var s := ScoreSlice(t, wave, height, p, well);
    var s0 := wave - s[0] - s[1] - s[2] - s[3];
    if s0 == wave {
      return [s0, {}, {}, {}, {}];
    }
    var s1 := (Odd(s) - PairsOdd(s)) * wave;
    if s1 + s0 == wave {
      return [s0, s1, {}, {}, {}];
    }
    var s2 := (PairsOdd(s) - Odd(s)) * wave;
    if s2 + s1 + s0 == wave {
      return [s0, s1, s2, {}, {}];
    }
    var s3 := TriplesOdd(s) * wave;
    if s3 + s2 + s1 + s0 == wave {
      return [s0, s1, s2, s3, {}];
    }
    score := [s0, s1, s2, s3, s[0] * s[1] * s[2] * s[3] * wave];
  }

  // How high the stack can get.

  /** The height a placement in HEIGHT_MASKS entry `row` completing `s` rows leaves. */
  function CandidateHeight(wellHeight: nat, waveHeight: nat, row: nat, s: nat): int
  {
    Min(wellHeight, waveHeight + row - 4) + s
  }

  /** Some placement of score entry `s` of `sc` lies in HEIGHT_MASKS entry `row` and gives height `h`. */
  ghost predicate HeightWitness(t: Tables, sc: seq<Wave>, wave: Wave, waveHeight: nat, p: nat, well: Well, h: int)
    requires |well| == t.effHeight && |sc| == 5
  {
    exists s: nat, row: nat :: s < 5 && row < t.heightCount && t.heightMasks(p, row) * (sc[s] * wave) != {}
      && h == CandidateHeight(WellHeight(well), waveHeight, row, s)
  }

  lemma HeightWitnessAt(t: Tables, sc: seq<Wave>, wave: Wave, waveHeight: nat, p: nat, well: Well, s: nat, row: nat)
    requires |well| == t.effHeight && |sc| == 5 && s < 5 && row < t.heightCount
    requires t.heightMasks(p, row) * (sc[s] * wave) != {}
    ensures HeightWitness(t, sc, wave, waveHeight, p, well, CandidateHeight(WellHeight(well), waveHeight, row, s))
  {
  }

  /**
   * The two loops of `get_wave_height` over the five score entries: the
   * largest candidate height met, starting from `-WELL_LINE`, never more
   * than four above the stack.
   */
  method MaxCandidateHeight(t: Tables, scores: seq<Wave>, wave: Wave, waveHeight: nat, p: nat, well: Well, wellHeight: nat)
    returns (maxHeight: int)
    requires t.Valid() && |well| == t.effHeight && |scores| == 5 && wellHeight == WellHeight(well)
    ensures -(t.wellLine as int) <= maxHeight <= wellHeight + 4
    ensures maxHeight == -(t.wellLine as int) || HeightWitness(t, scores, wave, waveHeight, p, well, maxHeight)
  {
    maxHeight := -(t.wellLine as int);
    var wsc := new Wave[5](_ => {});
    var total: Wave := {};
    for s := 0 to 5
      invariant -(t.wellLine as int) <= maxHeight <= wellHeight + 4
      invariant maxHeight == -(t.wellLine as int) || HeightWitness(t, scores, wave, waveHeight, p, well, maxHeight)
    {
      wsc[s] := scores[s] * wave;
      for row := 0 to t.heightCount
        invariant wsc[s] == scores[s] * wave
        invariant -(t.wellLine as int) <= maxHeight <= wellHeight + 4
        invariant maxHeight == -(t.wellLine as int) || HeightWitness(t, scores, wave, waveHeight, p, well, maxHeight)
      {
        var h := t.heightMasks(p, row);
        if h * wsc[s] != {} {
          var tmpHeight := Min(wellHeight, waveHeight + row - 4) + s;
          HeightWitnessAt(t, scores, wave, waveHeight, p, well, s, row);
          maxHeight := Max(maxHeight, tmpHeight);
        }
        if h * wsc[s] == wsc[s] {
          break;
        }
      }
      total := total + wsc[s];
      if total == wave {
        break;
      }
    }
  }

  /**
   * `get_wave_height` as written, on the scores `scores` returns:
   * `-WELL_LINE` for an empty waveform, otherwise a candidate height of
   * those scores, never more than four above the stack.
   */
  method GetWaveHeight(t: Tables, wave: Wave, waveHeight: nat, p: nat, well: Well) returns (maxHeight: int)
    requires t.Valid() && |well| == t.effHeight
    ensures wave == {} ==> maxHeight == -(t.wellLine as int)
    ensures -(t.wellLine as int) <= maxHeight <= WellHeight(well) + 4
    ensures maxHeight == -(t.wellLine as int)
      || HeightWitness(t, ScoresOf(ScoreSliceOf(t, wave, waveHeight, p, well), wave), wave, waveHeight, p, well, maxHeight)
  {
    var wellHeight := GetWellHeight(well);
    if wave == {} {
      return -(t.wellLine as int);
    }
    var scores := Scores(t, wave, waveHeight, p, well);
    maxHeight := MaxCandidateHeight(t, scores, wave, waveHeight, p, well, wellHeight);
  }

  /** `get_wave_height` on the corrected scores, where entry `s` holds the placements completing `s` rows. */
  method GetWaveHeightCorrected(t: Tables, wave: Wave, waveHeight: nat, p: nat, well: Well) returns (maxHeight: int)
    requires t.Valid() && |well| == t.effHeight
    ensures wave == {} ==> maxHeight == -(t.wellLine as int)
    ensures -(t.wellLine as int) <= maxHeight <= WellHeight(well) + 4
    ensures maxHeight == -(t.wellLine as int)
      || HeightWitness(t, ScoresExact(ScoreSliceOf(t, wave, waveHeight, p, well), wave), wave, waveHeight, p, well, maxHeight)
  {
    var wellHeight := GetWellHeight(well);
    if wave == {} {
      return -(t.wellLine as int);
    }
    var scores := ScoresCorrected(t, wave, waveHeight, p, well);
    maxHeight := MaxCandidateHeight(t, scores, wave, waveHeight, p, well, wellHeight);
  }
}
