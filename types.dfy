/**
 * The state records of the search and what is done with them: a well with
 * its score (`State`), the same with a heuristic value (`StateH`), with the
 * bookkeeping of the beam search (`StateP`) and with the keys it is stored
 * under in the database (`StateD`); their hand-written orderings and
 * equality, the conversions between them, the SQL insert text and the ASCII
 * picture of a well; and the search presets with the paths of the files a
 * run writes.
 */
module Types {
  import opened Bits
  import opened Format

  // Rust's fixed-width integers, as ranges of `int`.
  type U16 = x: int | 0 <= x < 0x1_0000
  type I32 = x: int | -0x8000_0000 <= x < 0x8000_0000
  type I64 = x: int | -0x8000_0000_0000_0000 <= x < 0x8000_0000_0000_0000
  type USize = x: int | 0 <= x < 0x1_0000_0000_0000_0000
  type ISize = I64

  const I64_MIN: I64 := -0x8000_0000_0000_0000
  const USIZE_MAX: USize := 0xFFFF_FFFF_FFFF_FFFF

  /** One row of the well, one bit per column (`RowT`). */
  type Row = U16

  /**
   * A set of piece placements, one per bit of a 64-bit word (`WaveT`),
   * given by the positions of its set bits.
   */
  type Wave = set<nat>

  /** The rows of a well, index 0 at the top (`WellT`). Every well has `EFF_HEIGHT` rows. */
  type Well = seq<Row>

  type Score = U16

  datatype State = State(well: Well, score: Score)

  datatype StateH = StateH(well: Well, score: Score, heuristic: I64)

  /** The `f64` fields are only copied, never computed on, here. */
  datatype StateP = StateP(well: Well, score: Score, heuristic: real, minPrevHeuristic: real,
                           depth: USize, parentIndex: USize)

  datatype StateD = StateD(well: Well, score: Score, depth: I32, runId: I32)

  datatype Ordering = Less | Equal | Greater
  {
    function Reverse(): Ordering
    {
      match this
      case Less => Greater
      case Equal => Equal
      case Greater => Less
    }
  }

  /** `Ord::cmp` of two integers. */
  function Compare(a: int, b: int): Ordering
  {
    if a < b then Less else if a == b then Equal else Greater
  }


  // Orderings.

  /** Two wells compared row by row from index 0; the first row that differs decides. */
  function CompareWells(a: Well, b: Well): Ordering
    requires |a| == |b|
  {
    if a == [] then Equal
    else if Compare(a[0], b[0]) != Equal then Compare(a[0], b[0])
    else CompareWells(a[1..], b[1..])
  }

  /** `State::cmp`: by score, then by the wells. */
  function StateOrder(a: State, b: State): Ordering
    requires |a.well| == |b.well|
  {
    if Compare(a.score, b.score) != Equal then Compare(a.score, b.score)
    else CompareWells(a.well, b.well)
  }

  /** `StateH::cmp`: by heuristic, then by score, then by the wells. */
  function StateHOrder(a: StateH, b: StateH): Ordering
    requires |a.well| == |b.well|
  {
    if Compare(a.heuristic, b.heuristic) != Equal then Compare(a.heuristic, b.heuristic)
    else if Compare(a.score, b.score) != Equal then Compare(a.score, b.score)
    else CompareWells(a.well, b.well)
  }

  /** `StateD::cmp`: by score, then by the wells. */
  function StateDOrder(a: StateD, b: StateD): Ordering
    requires |a.well| == |b.well|
  {
    if Compare(a.score, b.score) != Equal then Compare(a.score, b.score)
    else CompareWells(a.well, b.well)
  }

  lemma CompareWellsFrom(a: Well, b: Well, i: nat)
    requires |a| == |b| && i < |a| && a[i] == b[i]
    ensures CompareWells(a[i..], b[i..]) == CompareWells(a[i + 1..], b[i + 1..])
  {
    assert a[i..][1..] == a[i + 1..] && b[i..][1..] == b[i + 1..];
  }

  /**
   * The loop shared by the three `cmp` implementations: advance while the
   * rows compare equal and stop at the first difference.
   */
  method CompareWellRows(a: Well, b: Well) returns (r: Ordering)
    requires |a| == |b|
    ensures r == CompareWells(a, b)
  {
    r := Equal;
    var i := 0;
    while r == Equal && i < |a|
      invariant 0 <= i <= |a|
      invariant r == Equal ==> CompareWells(a, b) == CompareWells(a[i..], b[i..])
      invariant r != Equal ==> r == CompareWells(a, b)
    {
      r := Compare(a[i], b[i]);
      if r == Equal {
        CompareWellsFrom(a, b, i);
      } else {
        assert a[i..][0] == a[i] && b[i..][0] == b[i];
      }
      i := i + 1;
    }
    assert r == Equal ==> a[i..] == [];
  }

  method CompareStates(self: State, other: State) returns (r: Ordering)
    requires |self.well| == |other.well|
    ensures r == StateOrder(self, other)
    ensures r == Equal <==> self == other
  {
    var firstCmp := Compare(self.score, other.score);
    if firstCmp != Equal {
      return firstCmp;
    }
    r := CompareWellRows(self.well, other.well);
    StateOrderEqual(self, other);
  }

  method CompareStatesH(self: StateH, other: StateH) returns (r: Ordering)
    requires |self.well| == |other.well|
    ensures r == StateHOrder(self, other)
  {
    var firstCmp := Compare(self.heuristic, other.heuristic);
    if firstCmp != Equal {
      return firstCmp;
    }
    var secondCmp := Compare(self.score, other.score);
    if secondCmp != Equal {
      return secondCmp;
    }
    r := CompareWellRows(self.well, other.well);
  }

  method CompareStatesD(self: StateD, other: StateD) returns (r: Ordering)
    requires |self.well| == |other.well|
    ensures r == StateDOrder(self, other)
  {
    var firstCmp := Compare(self.score, other.score);
    if firstCmp != Equal {
      return firstCmp;
    }
    r := CompareWellRows(self.well, other.well);
  }

  /** The well comparison says `Equal` exactly for equal wells. */
  lemma {:induction false} CompareWellsEqual(a: Well, b: Well)
    requires |a| == |b|
    ensures CompareWells(a, b) == Equal <==> a == b
    decreases |a|
  {
    if a != [] {
      CompareWellsEqual(a[1..], b[1..]);
      assert a == [a[0]] + a[1..] && b == [b[0]] + b[1..];
    }
  }

  /** Swapping the wells reverses the comparison. */
  lemma {:induction false} CompareWellsReverse(a: Well, b: Well)
    requires |a| == |b|
    ensures CompareWells(b, a) == CompareWells(a, b).Reverse()
    decreases |a|
  {
    if a != [] {
      CompareWellsReverse(a[1..], b[1..]);
    }
  }

  /** The well comparison is transitive, and strictly so when either step is strict. */
  lemma {:induction false} CompareWellsTransitive(a: Well, b: Well, c: Well)
    requires |a| == |b| == |c|
    requires CompareWells(a, b) != Greater && CompareWells(b, c) != Greater
    ensures CompareWells(a, c) != Greater
    ensures CompareWells(a, c) == Equal ==> CompareWells(a, b) == Equal && CompareWells(b, c) == Equal
    decreases |a|
  {
    if a != [] && a[0] == b[0] && b[0] == c[0] {
      CompareWellsTransitive(a[1..], b[1..], c[1..]);
    }
  }

  /** `State::cmp` agrees with the derived equality. */
  lemma StateOrderEqual(a: State, b: State)
    requires |a.well| == |b.well|
    ensures StateOrder(a, b) == Equal <==> a == b
  {
    CompareWellsEqual(a.well, b.well);
  }

  /** `State::cmp` is antisymmetric. */
  lemma StateOrderReverse(a: State, b: State)
    requires |a.well| == |b.well|
    ensures StateOrder(b, a) == StateOrder(a, b).Reverse()
  {
    CompareWellsReverse(a.well, b.well);
  }

  /** `State::cmp` is transitive. */
  lemma StateOrderTransitive(a: State, b: State, c: State)
    requires |a.well| == |b.well| == |c.well|
    requires StateOrder(a, b) != Greater && StateOrder(b, c) != Greater
    ensures StateOrder(a, c) != Greater
    ensures StateOrder(a, c) == Equal ==> StateOrder(a, b) == Equal && StateOrder(b, c) == Equal
  {
    if a.score == b.score == c.score {
      CompareWellsTransitive(a.well, b.well, c.well);
    }
  }

  /** `StateH::cmp` says `Equal` exactly when heuristic, score and well all agree. */
  lemma StateHOrderEqual(a: StateH, b: StateH)
    requires |a.well| == |b.well|
    ensures StateHOrder(a, b) == Equal <==> a == b
  {
    CompareWellsEqual(a.well, b.well);
  }

  /** `StateH::cmp` is antisymmetric. */
  lemma StateHOrderReverse(a: StateH, b: StateH)
    requires |a.well| == |b.well|
    ensures StateHOrder(b, a) == StateHOrder(a, b).Reverse()
  {
    CompareWellsReverse(a.well, b.well);
  }

  /** `StateH::cmp` is transitive. */
  lemma StateHOrderTransitive(a: StateH, b: StateH, c: StateH)
    requires |a.well| == |b.well| == |c.well|
    requires StateHOrder(a, b) != Greater && StateHOrder(b, c) != Greater
    ensures StateHOrder(a, c) != Greater
    ensures StateHOrder(a, c) == Equal ==> StateHOrder(a, b) == Equal && StateHOrder(b, c) == Equal
  {
    if a.heuristic == b.heuristic == c.heuristic && a.score == b.score == c.score {
      CompareWellsTransitive(a.well, b.well, c.well);
    }
  }

  /** Between states of equal heuristic, `StateH::cmp` is `State::cmp` of the converted states. */
  lemma StateHOrderRefines(a: StateH, b: StateH)
    requires |a.well| == |b.well| && a.heuristic == b.heuristic
    ensures StateHOrder(a, b) == StateOrder(FromStateH(a), FromStateH(b))
  {
  }

  /** `StateD::cmp` is `State::cmp` of the states the records hold: depth and run id play no part. */
  lemma StateDOrderIgnoresKeys(a: StateD, b: StateD)
    requires |a.well| == |b.well|
    ensures StateDOrder(a, b) == StateOrder(SplitStateD(a).0, SplitStateD(b).0)
    ensures StateDOrder(a, b) == Equal <==> a.well == b.well && a.score == b.score
  {
    StateOrderEqual(SplitStateD(a).0, SplitStateD(b).0);
  }

  /** Hence `StateD::cmp` can say `Equal` of records the derived `==` tells apart. */
  lemma StateDOrderCoarserThanEquality(a: StateD)
    ensures a.(depth := if a.depth == 0 then 1 else 0) != a
    ensures StateDOrder(a, a.(depth := if a.depth == 0 then 1 else 0)) == Equal
  {
    StateDOrderIgnoresKeys(a, a.(depth := if a.depth == 0 then 1 else 0));
  }

  // Equality of `StateH`.

  /**
   * `StateH::eq` as written: it tests the score of `self` against itself,
   * so only the wells are compared.
   */
  method StateHEq(self: StateH, other: StateH) returns (r: bool)
    requires |self.well| == |other.well|
    ensures r <==> self.well == other.well
  {
    if self.score != self.score {
      // The test cannot hold, so this branch is never taken.
      return false;
    }
    for i := 0 to |self.well|
      invariant self.well[..i] == other.well[..i]
    {
      if self.well[i] != other.well[i] {
        return false;
      }
    }
    assert self.well == self.well[..|self.well|];
    return true;
  }

  /** Two records that differ only in score, which `StateHEq` calls equal. */
  method StateHEqIgnoresScore() returns (a: StateH, b: StateH, r: bool)
    ensures a.score != b.score && r
  {
    a := StateH([0], 0, 0);
    b := StateH([0], 1, 0);
    r := StateHEq(a, b);
  }

  /** `StateH::eq` with the score of `self` tested against that of `other`. */
  method StateHEqCorrected(self: StateH, other: StateH) returns (r: bool)
    requires |self.well| == |other.well|
    ensures r <==> self.well == other.well && self.score == other.score
  {
    if self.score != other.score {
      return false;
    }
    for i := 0 to |self.well|
      invariant self.well[..i] == other.well[..i]
    {
      if self.well[i] != other.well[i] {
        return false;
      }
    }
    assert self.well == self.well[..|self.well|];
    return true;
  }

  // Construction and conversion.

  function EmptyWell(effHeight: nat): (w: Well)
    ensures |w| == effHeight && forall i | 0 <= i < effHeight :: w[i] == 0
  {
    seq(effHeight, _ => 0)
  }

  /** `State::new`. */
  function NewState(effHeight: nat): (s: State)
    ensures |s.well| == effHeight && s.score == 0
    ensures forall i | 0 <= i < effHeight :: s.well[i] == 0
  {
    State(EmptyWell(effHeight), 0)
  }

  /** `StateH::new`. */
  function NewStateH(effHeight: nat): (h: StateH)
    ensures FromStateH(h) == NewState(effHeight) && h.heuristic == I64_MIN
  {
    StateH(EmptyWell(effHeight), 0, I64_MIN)
  }

  /** `State::convert`: keeps well and score, drops the heuristic. */
  function FromStateH(h: StateH): (s: State)
    ensures s.well == h.well && s.score == h.score
  {
    State(h.well, h.score)
  }

  /** `StateP::convert_state`: keeps well and score, drops the search bookkeeping. */
  function StatePToState(p: StateP): (s: State)
    ensures s.well == p.well && s.score == p.score
  {
    State(p.well, p.score)
  }

  /** `StateD::convert`. */
  function ToStateD(s: State, depth: I32, runId: I32): (d: StateD)
    ensures SplitStateD(d) == (s, (depth, runId))
  {
    StateD(s.well, s.score, depth, runId)
  }

  /** `StateD::convert_tuple`. */
  function SplitStateD(d: StateD): (State, (I32, I32))
  {
    (State(d.well, d.score), (d.depth, d.runId))
  }

  lemma {:induction false} EmptyWellLeast(w: Well)
    ensures CompareWells(EmptyWell(|w|), w) != Greater
    decreases |w|
  {
    if w != [] {
      EmptyWellLeast(w[1..]);
      assert EmptyWell(|w|)[1..] == EmptyWell(|w| - 1);
    }
  }

  /** `State::new()` is the least state of its height, and the only one comparing `Equal` to it. */
  lemma NewStateLeast(s: State)
    ensures StateOrder(NewState(|s.well|), s) != Greater
    ensures StateOrder(NewState(|s.well|), s) == Equal <==> s == NewState(|s.well|)
  {
    EmptyWellLeast(s.well);
    StateOrderEqual(NewState(|s.well|), s);
  }

  /** `StateH::new()` is the least `StateH` of its height under `StateH::cmp`. */
  lemma NewStateHLeast(h: StateH)
    ensures StateHOrder(NewStateH(|h.well|), h) != Greater
    ensures FromStateH(NewStateH(|h.well|)) == NewState(|h.well|)
  {
    EmptyWellLeast(h.well);
  }

  /** `convert_tuple` undoes `convert`, and the reverse. */
  lemma SplitStateDRoundTrip(s: State, depth: I32, runId: I32, d: StateD)
    ensures SplitStateD(ToStateD(s, depth, runId)) == (s, (depth, runId))
    ensures ToStateD(SplitStateD(d).0, SplitStateD(d).1.0, SplitStateD(d).1.1) == d
  {
  }

  /** The conversions to `State` depend on well and score only. */
  lemma ConversionsKeepWellAndScore(h: StateH, p: StateP, d: StateD)
    requires h.well == p.well == d.well && h.score == p.score == d.score
    ensures FromStateH(h) == StatePToState(p) == SplitStateD(d).0
  {
  }

  // The SQL insert text.

  const InsertPrefix: string := "INSERT INTO WELLS (well_state, run_id, depth, score) VALUES ("

  /** The rows as unsigned numbers, the way `{:?}` prints them. */
  function RowValues(well: Well): (v: seq<nat>)
    ensures |v| == |well| && forall i | 0 <= i < |well| :: v[i] == well[i]
  {
    seq(|well|, i requires 0 <= i < |well| => well[i])
  }

  /** The text `get_insert_query` builds. */
  function QueryText(d: StateD): string
  {
    InsertPrefix + ("'" + (ListText(RowValues(d.well)) + ("'" + (", " + (IntText(d.runId)
      + (", " + (IntText(d.depth) + (", " + (NatText(d.score) + ");")))))))))
  }

  /** `get_insert_query`: the text is appended piece by piece. */
  method InsertQuery(d: StateD) returns (query: string)
    ensures query == QueryText(d)
  {
    query := InsertPrefix;
    query := query + ("'" + ListText(RowValues(d.well)) + "'");
    query := query + ", ";
    query := query + IntText(d.runId);
    query := query + ", ";
    query := query + IntText(d.depth);
    query := query + ", ";
    query := query + NatText(d.score);
    query := query + ");";
  }

  /** The values a query carries, as a reader of the database sees them. */
  datatype QueryValues = QueryValues(rows: seq<nat>, runId: int, depth: int, score: nat)

  /** Strips `lit` from the front of `s`. */
  function Expect(s: string, lit: string): (r: Option<string>)
    ensures r.Some? ==> |r.value| <= |s|
  {
    if |lit| <= |s| && s[..|lit|] == lit then Some(s[|lit|..]) else None
  }

  lemma ExpectText(lit: string, rest: string)
    ensures Expect(lit + rest, lit) == Some(rest)
  {
    assert (lit + rest)[..|lit|] == lit && (lit + rest)[|lit|..] == rest;
  }

  function ParseScore(s: string): Option<nat>
  {
    match ParseNat(s)
    case None => None
    case Some(p) => if p.1 == ");" then Some(p.0) else None
  }

  function ParseDepthOn(s: string): Option<(int, nat)>
  {
    match ParseInt(s)
    case None => None
    case Some(p) =>
      match Expect(p.1, ", ")
      case None => None
      case Some(t) =>
        match ParseScore(t)
        case None => None
        case Some(score) => Some((p.0, score))
  }

  function ParseRunIdOn(s: string): Option<(int, int, nat)>
  {
    match ParseInt(s)
    case None => None
    case Some(p) =>
      match Expect(p.1, ", ")
      case None => None
      case Some(t) =>
        match ParseDepthOn(t)
        case None => None
        case Some(q) => Some((p.0, q.0, q.1))
  }

  /** Reads the values back out of an insert query. */
  function ParseQuery(q: string): Option<QueryValues>
  {
    match Expect(q, InsertPrefix + "'")
    case None => None
    case Some(s) =>
      match ParseList(s)
      case None => None
      case Some(l) =>
        match Expect(l.1, "', ")
        case None => None
        case Some(t) =>
          match ParseRunIdOn(t)
          case None => None
          case Some(v) => Some(QueryValues(l.0, v.0, v.1, v.2))
  }

  lemma ParseScoreText(score: nat)
    ensures ParseScore(NatText(score) + ");") == Some(score)
  {
    ParseNatText(score, ");");
  }

  lemma ParseDepthText(depth: int, score: nat)
    ensures ParseDepthOn(IntText(depth) + (", " + (NatText(score) + ");"))) == Some((depth, score))
  {
    ParseIntText(depth, ", " + (NatText(score) + ");"));
    ExpectText(", ", NatText(score) + ");");
    ParseScoreText(score);
  }

  lemma ParseRunIdText(runId: int, depth: int, score: nat)
    ensures ParseRunIdOn(IntText(runId) + (", " + (IntText(depth) + (", " + (NatText(score) + ");")))))
         == Some((runId, depth, score))
  {
    var t := IntText(depth) + (", " + (NatText(score) + ");"));
    ParseIntText(runId, ", " + t);
    ExpectText(", ", t);
    ParseDepthText(depth, score);
  }

  /** The insert query gives back the rows, run id, depth and score it was built from. */
  lemma QueryRoundTrip(d: StateD)
    ensures ParseQuery(QueryText(d)) == Some(QueryValues(RowValues(d.well), d.runId, d.depth, d.score))
  {
    var tail := IntText(d.runId) + (", " + (IntText(d.depth) + (", " + (NatText(d.score) + ");"))));
    var afterList := "'" + (", " + tail);
    var body := ListText(RowValues(d.well)) + afterList;
    assert QueryText(d) == (InsertPrefix + "'") + body;
    ExpectText(InsertPrefix + "'", body);
    ParseListText(RowValues(d.well), afterList);
    assert afterList == "', " + tail;
    ExpectText("', ", tail);
    ParseRunIdText(d.runId, d.depth, d.score);
  }

  // The ASCII picture of a well (`StatePP`'s `Debug`).

  /** Each character of a binary text drawn as '#' for '1' and ' ' for anything else. */
  function Glyphs(s: string): (g: string)
    ensures |g| == |s| && forall i | 0 <= i < |s| :: g[i] == if s[i] == '1' then '#' else ' '
  {
    seq(|s|, i requires 0 <= i < |s| => if s[i] == '1' then '#' else ' ')
  }

  /** One row: `{:010b}\n` drawn with `Glyphs`, then a newline. */
  function RowPicture(x: Row): string
  {
    Glyphs(ZeroPad(BinaryText(x), 10) + "\n") + "\n"
  }

  function RowsPicture(well: Well): string
  {
    if well == [] then "" else RowsPicture(well[..|well| - 1]) + RowPicture(well[|well| - 1])
  }

  /** The whole text written for a `StatePP`. */
  function Picture(h: StateH): string
  {
    RowsPicture(h.well) + ("Heuristic: " + IntText(h.heuristic) + "\n") + ("Score: " + NatText(h.score) + "\n")
  }

  /** `StatePP::fmt`: the rows are written one by one, then the two lines. */
  method WritePicture(h: StateH) returns (out: string)
    ensures out == Picture(h)
  {
    out := "";
    for i := 0 to |h.well|
      invariant out == RowsPicture(h.well[..i])
    {
      var row := Glyphs(ZeroPad(BinaryText(h.well[i]), 10) + "\n");
      assert row + "\n" == RowPicture(h.well[i]);
      row := row + "\n";
      assert h.well[..i + 1][..i] == h.well[..i];
      out := out + row;
    }
    assert h.well[..|h.well|] == h.well;
    out := out + ("Heuristic: " + IntText(h.heuristic) + "\n");
    out := out + ("Score: " + NatText(h.score) + "\n");
  }

  /**
   * A row below 1024 is drawn as 12 characters: ten columns, most
   * significant bit first, '#' for a set bit and ' ' for a clear one, then
   * the ' ' the format's own newline turns into, then a newline.
   */
  lemma RowPictureColumns(x: Row, j: nat)
    requires x < 1024 && j < 10
    ensures |RowPicture(x)| == 12
    ensures RowPicture(x)[j] == if Bit(x, 9 - j) then '#' else ' '
    ensures RowPicture(x)[10] == ' ' && RowPicture(x)[11] == '\n'
  {
    Pow2Sixteen();
    BinaryDigits(x, 10, j);
    var b := ZeroPad(BinaryText(x), 10);
    assert (b + "\n")[j] == b[j] && (b + "\n")[10] == '\n';
  }

  /** The picture has one 12-character block per row, in row order, before the two lines. */
  lemma {:induction false} RowsPictureBlocks(well: Well, i: nat)
    requires i < |well| && forall k | 0 <= k < |well| :: well[k] < 1024
    ensures |RowsPicture(well)| == 12 * |well|
    ensures RowsPicture(well)[12 * i..12 * i + 12] == RowPicture(well[i])
    decreases |well|
  {
    RowPictureColumns(well[|well| - 1], 0);
    var init := well[..|well| - 1];
    if i < |well| - 1 {
      RowsPictureBlocks(init, i);
    } else if init != [] {
      RowsPictureBlocks(init, 0);
    }
    assert RowsPicture(well) == RowsPicture(init) + RowPicture(well[|well| - 1]);
  }

  // Search presets and paths.

  datatype SearchConf = SearchConf(beamWidth: USize, beamDepth: USize, generation: USize, maxPlay: USize,
                                   quiescent: bool, parent: bool, save: bool, printing: bool)

  /** The values of `crate::constants` the presets and paths read. `aeon` is the `Display` text of `AEON`. */
  datatype RunConstants = RunConstants(aeon: string, checkpoints: string,
                                       masterBeamWidth: USize, masterBeamDepth: USize, masterMaxPlay: USize,
                                       trainingBeamWidth: USize, trainingBeamDepth: USize, trainingMaxPlay: USize)

  /** `SearchConf::master`. */
  function Master(k: RunConstants, generation: USize): (c: SearchConf)
    ensures c.generation == generation && c.quiescent && c.parent && c.save && c.printing
  {
    SearchConf(k.masterBeamWidth, k.masterBeamDepth, generation, k.masterMaxPlay, true, true, true, true)
  }

  /** `SearchConf::training`. */
  function Training(k: RunConstants, generation: USize): (c: SearchConf)
    ensures c.generation == generation && !c.quiescent && !c.parent && !c.save && !c.printing
  {
    SearchConf(k.trainingBeamWidth, k.trainingBeamDepth, generation, k.trainingMaxPlay, false, false, false, false)
  }

  /** `SearchConf::testing`. */
  function Testing(k: RunConstants): (c: SearchConf)
    ensures c.beamDepth == USIZE_MAX && c.generation == 0 && !c.save
  {
    SearchConf(k.masterBeamWidth, USIZE_MAX, 0, k.masterMaxPlay, true, true, false, true)
  }

  /** The testing preset is the master preset of generation 0 with unbounded depth and nothing saved. */
  lemma TestingIsMasterVariant(k: RunConstants)
    ensures Testing(k) == Master(k, 0).(beamDepth := USIZE_MAX, save := false)
  {
  }

  function RunName(k: RunConstants, c: SearchConf): string
  {
    "aeon-" + k.aeon + "-gen-" + NatText(c.generation)
  }

  function AeonPath(k: RunConstants): string
  {
    k.checkpoints + "/Aeon " + k.aeon
  }

  function GenerationPath(k: RunConstants, c: SearchConf): string
  {
    AeonPath(k) + "/Generation " + NatText(c.generation)
  }

  function NeuralNetworkPath(k: RunConstants, c: SearchConf): string
  {
    GenerationPath(k, c) + "/Network " + NatText(c.generation) + ".bin"
  }

  function ReplayPath(k: RunConstants, c: SearchConf): string
  {
    GenerationPath(k, c) + "/Replay"
  }

  function TrainingPath(k: RunConstants, c: SearchConf): string
  {
    GenerationPath(k, c) + "/Training"
  }

  function MovePath(k: RunConstants, c: SearchConf, depth: USize): string
  {
    ReplayPath(k, c) + "/move_" + NatText(depth) + ".bin"
  }

  function ParentPath(k: RunConstants, c: SearchConf, depth: USize): string
  {
    ReplayPath(k, c) + "/parent_" + NatText(depth) + ".bin"
  }

  function EpochPath(k: RunConstants, c: SearchConf, epoch: ISize): string
  {
    TrainingPath(k, c) + "/epoch_" + IntText(epoch) + ".bin"
  }

  function DataPath(k: RunConstants, c: SearchConf): string
  {
    TrainingPath(k, c) + "/all_epochs.bin"
  }

  predicate IsPrefix(p: string, s: string) { |p| <= |s| && s[..|p|] == p }

  /** `dir + "/"` starts any name written under `dir` with a separator first. */
  lemma DirPrefix(dir: string, name: string)
    requires |name| > 0 && name[0] == '/'
    ensures IsPrefix(dir + "/", dir + name)
  {
    assert (dir + name)[..|dir| + 1] == dir + "/";
  }

  lemma PrefixGrows(p: string, s: string, x: string)
    requires IsPrefix(p, s)
    ensures IsPrefix(p, s + x)
  {
    assert (s + x)[..|p|] == s[..|p|];
  }

  /** If `p + x + q == p + y + q` then `x == y`. */
  lemma MiddleEqual(p: string, x: string, y: string, q: string)
    requires p + x + q == p + y + q
    ensures x == y
  {
    assert |x| == |y|;
    forall i | 0 <= i < |x| ensures x[i] == y[i] {
      assert x[i] == (p + x + q)[|p| + i];
      assert y[i] == (p + y + q)[|p| + i];
    }
  }

  /** The files and directories of a generation lie in that generation's directory. */
  lemma GenerationFilesNest(k: RunConstants, c: SearchConf)
    ensures IsPrefix(GenerationPath(k, c) + "/", NeuralNetworkPath(k, c))
    ensures IsPrefix(GenerationPath(k, c) + "/", ReplayPath(k, c))
    ensures IsPrefix(GenerationPath(k, c) + "/", TrainingPath(k, c))
  {
    var g := GenerationPath(k, c);
    DirPrefix(g, "/Network ");
    PrefixGrows(g + "/", g + "/Network ", NatText(c.generation));
    PrefixGrows(g + "/", g + "/Network " + NatText(c.generation), ".bin");
    DirPrefix(g, "/Replay");
    DirPrefix(g, "/Training");
  }

  /** Move and parent files lie in the replay directory. */
  lemma ReplayFilesNest(k: RunConstants, c: SearchConf, depth: USize)
    ensures IsPrefix(ReplayPath(k, c) + "/", MovePath(k, c, depth))
    ensures IsPrefix(ReplayPath(k, c) + "/", ParentPath(k, c, depth))
  {
    var r := ReplayPath(k, c);
    DirPrefix(r, "/move_");
    PrefixGrows(r + "/", r + "/move_", NatText(depth));
    PrefixGrows(r + "/", r + "/move_" + NatText(depth), ".bin");
    DirPrefix(r, "/parent_");
    PrefixGrows(r + "/", r + "/parent_", NatText(depth));
    PrefixGrows(r + "/", r + "/parent_" + NatText(depth), ".bin");
  }

  /** Epoch files and the data file lie in the training directory. */
  lemma TrainingFilesNest(k: RunConstants, c: SearchConf, epoch: ISize)
    ensures IsPrefix(TrainingPath(k, c) + "/", EpochPath(k, c, epoch))
    ensures IsPrefix(TrainingPath(k, c) + "/", DataPath(k, c))
  {
    var t := TrainingPath(k, c);
    DirPrefix(t, "/epoch_");
    PrefixGrows(t + "/", t + "/epoch_", IntText(epoch));
    PrefixGrows(t + "/", t + "/epoch_" + IntText(epoch), ".bin");
    DirPrefix(t, "/all_epochs.bin");
  }

  /** Different generations have different directories and run names. */
  lemma GenerationPathInjective(k: RunConstants, c1: SearchConf, c2: SearchConf)
    requires GenerationPath(k, c1) == GenerationPath(k, c2) || RunName(k, c1) == RunName(k, c2)
    ensures c1.generation == c2.generation
  {
    if GenerationPath(k, c1) == GenerationPath(k, c2) {
      MiddleEqual(AeonPath(k) + "/Generation ", NatText(c1.generation), NatText(c2.generation), "");
    } else {
      MiddleEqual("aeon-" + k.aeon + "-gen-", NatText(c1.generation), NatText(c2.generation), "");
    }
    NatTextInjective(c1.generation, c2.generation);
  }

  /** Different depths have different move files and different parent files. */
  lemma DepthPathsInjective(k: RunConstants, c: SearchConf, d1: USize, d2: USize)
    requires MovePath(k, c, d1) == MovePath(k, c, d2) || ParentPath(k, c, d1) == ParentPath(k, c, d2)
    ensures d1 == d2
  {
    if MovePath(k, c, d1) == MovePath(k, c, d2) {
      MiddleEqual(ReplayPath(k, c) + "/move_", NatText(d1), NatText(d2), ".bin");
    } else {
      MiddleEqual(ReplayPath(k, c) + "/parent_", NatText(d1), NatText(d2), ".bin");
    }
    NatTextInjective(d1, d2);
  }

  /** A move file is never a parent file. */
  lemma MoveAndParentPathsDiffer(k: RunConstants, c: SearchConf, d1: USize, d2: USize)
    ensures MovePath(k, c, d1) != ParentPath(k, c, d2)
  {
    var r := ReplayPath(k, c);
    assert MovePath(k, c, d1)[|r| + 1] == 'm';
    assert ParentPath(k, c, d2)[|r| + 1] == 'p';
  }

  /** Different epochs have different files. */
  lemma EpochPathInjective(k: RunConstants, c: SearchConf, e1: ISize, e2: ISize)
    requires EpochPath(k, c, e1) == EpochPath(k, c, e2)
    ensures e1 == e2
  {
    MiddleEqual(TrainingPath(k, c) + "/epoch_", IntText(e1), IntText(e2), ".bin");
    ParseIntText(e1, "");
    ParseIntText(e2, "");
    assert IntText(e1) + "" == IntText(e1) && IntText(e2) + "" == IntText(e2);
  }
}
