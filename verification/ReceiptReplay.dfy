/** Success predicates that replay action receipts: returning after going away, and a
    complete blueprint. */
module ReceiptReplay {
  import opened Multiples
  import opened Options
  import opened Sequences

  datatype Cell = Cell(x: int, y: int, z: int)

  /** The action result of a receipt, as far as it parsed: positions that are not
      integral block coordinates and texts of another type are absent. */
  datatype ActionResult = ActionResult(
    verified: bool,
    applied: bool,
    code: string,
    position: Option<Cell>,
    placed: Option<string>,
    requested: Option<string>,
    broken: Option<seq<Option<Cell>>>)

  datatype Position = Position(x: real, y: real, z: real)

  /** `position` is the observed position, when there is an observation with a finite
      one; `anchor` is where the observation puts the anchor, when it puts it at finite
      coordinates. */
  datatype Receipt = Receipt(
    actionType: string,
    verified: bool,
    result: Option<ActionResult>,
    position: Option<Position>,
    anchor: Option<Cell>)

  // ---- Where the anchor is ----

  /** Where the anchor is: the final observation decides, else the latest receipt that
      shows it. */
  function AnchorAt(last: Option<Cell>, receipts: seq<Receipt>): Option<Cell>
    decreases |receipts|
  {
    if last.Some? || receipts == [] then last
    else AnchorAt(receipts[|receipts| - 1].anchor, receipts[..|receipts| - 1])
  }

  ghost predicate NoneShownFrom(receipts: seq<Receipt>, k: nat) {
    forall l | k <= l < |receipts| :: receipts[l].anchor.None?
  }

  /** The final observation decides; failing that, the receipt that shows the anchor and
      that no later one follows; nothing when none shows it. */
  ghost predicate IsLatestAnchor(finalAnchor: Option<Cell>, receipts: seq<Receipt>, base: Option<Cell>) {
    if finalAnchor.Some? then base == finalAnchor
    else if base.None? then NoneShownFrom(receipts, 0)
    else exists k :: 0 <= k < |receipts| && receipts[k].anchor == base && NoneShownFrom(receipts, k + 1)
  }

  method FindAnchor(finalAnchor: Option<Cell>, receipts: seq<Receipt>) returns (base: Option<Cell>)
    ensures base == AnchorAt(finalAnchor, receipts)
    ensures IsLatestAnchor(finalAnchor, receipts, base)
  {
    base := finalAnchor;
    var k := |receipts|;
    assert receipts[..k] == receipts;
    while base.None? && k > 0
      invariant 0 <= k <= |receipts|
      invariant AnchorAt(finalAnchor, receipts) == AnchorAt(base, receipts[..k])
      invariant finalAnchor.Some? ==> base == finalAnchor
      invariant base.None? ==> NoneShownFrom(receipts, k)
      invariant finalAnchor.None? && base.Some? ==>
                  k < |receipts| && receipts[k].anchor == base && NoneShownFrom(receipts, k + 1)
    {
      assert receipts[..k][..k - 1] == receipts[..k - 1];
      k := k - 1;
      base := receipts[k].anchor;
    }
  }

  // ---- Away, then return ----

  function SquaredDistance(p: Position, anchor: Cell): real {
    var dx, dy, dz := p.x - anchor.x as real, p.y - anchor.y as real, p.z - anchor.z as real;
    Square(dx) + Square(dy) + Square(dz)
  }

  /** It is the square of the distance: the squares along the three axes. */
  lemma Pythagoras(p: Position, anchor: Cell)
    ensures SquaredDistance(p, anchor) ==
            Square(p.x - anchor.x as real) + Square(p.y - anchor.y as real) + Square(p.z - anchor.z as real)
    ensures SquaredDistance(p, anchor) == 0.0 <==>
            p == Position(anchor.x as real, anchor.y as real, anchor.z as real)
  {
    SquareSign(p.x - anchor.x as real);
    SquareSign(p.y - anchor.y as real);
    SquareSign(p.z - anchor.z as real);
  }

  /** The distance is at least `d`, without its root. */
  predicate AtLeast(squared: real, d: real) {
    d <= 0.0 || squared >= Square(d)
  }

  predicate AtMost(squared: real, d: real) {
    d >= 0.0 && squared <= Square(d)
  }

  /** These are the comparisons with the distance itself. */
  lemma RootCompares(squared: real, distance: real, d: real)
    requires distance >= 0.0 && Square(distance) == squared
    ensures AtLeast(squared, d) <==> distance >= d
    ensures AtMost(squared, d) <==> distance <= d
  {
    if 0.0 <= d < distance { SmallerSquare(d, distance); }
    if 0.0 <= distance < d { SmallerSquare(distance, d); }
  }

  predicate IsMovement(actionType: string) {
    actionType in ["goto", "goto_entity", "move_away", "follow_player"]
  }

  /** A receipt that proves where a verified movement ended. */
  predicate ProvesMovement(r: Receipt) {
    && IsMovement(r.actionType) && r.verified
    && r.result.Some? && r.result.value.applied && r.result.value.verified
    && r.position.Some?
  }

  /** Some verified movement reached the departure distance, and a strictly later one
      was back within the radius. */
  ghost predicate WentAndCameBack(receipts: seq<Receipt>, base: Cell, departure: real, radius: real) {
    exists i, j :: 0 <= i < j < |receipts| && AwayAt(receipts[i], base, departure) && BackAt(receipts[j], base, radius)
  }

  predicate AwayAt(r: Receipt, base: Cell, departure: real) {
    ProvesMovement(r) && AtLeast(SquaredDistance(r.position.value, base), departure)
  }

  predicate BackAt(r: Receipt, base: Cell, radius: real) {
    ProvesMovement(r) && AtMost(SquaredDistance(r.position.value, base), radius)
  }

  /** The evaluator: true exactly when the anchor is known, a verified movement got away
      from it and a later one came back, and the final position is still there. */
  method AwayThenReturn(receipts: seq<Receipt>, finalAnchor: Option<Cell>, finalPosition: Option<Position>,
                        departure: real, radius: real) returns (ok: bool)
    ensures var base := AnchorAt(finalAnchor, receipts);
            ok <==> base.Some? && WentAndCameBack(receipts, base.value, departure, radius)
                    && finalPosition.Some? && AtMost(SquaredDistance(finalPosition.value, base.value), radius)
  {
    var base := FindAnchor(finalAnchor, receipts);
    if base.None? { return false; }
    var returned := CameBack(receipts, base.value, departure, radius);
    return returned && finalPosition.Some? && AtMost(SquaredDistance(finalPosition.value, base.value), radius);
  }

  /** The loop over the receipts. */
  method CameBack(receipts: seq<Receipt>, base: Cell, departure: real, radius: real) returns (ok: bool)
    ensures ok <==> WentAndCameBack(receipts, base, departure, radius)
  {
    var departed, returned := false, false;
    for k := 0 to |receipts|
      invariant departed <==> exists i :: 0 <= i < k && AwayAt(receipts[i], base, departure)
      invariant returned <==> WentAndCameBack(receipts[..k], base, departure, radius)
    {
      var r := receipts[k];
      ReturnStep(receipts, k, base, departure, radius);
      if !IsMovement(r.actionType) || !r.verified { continue; }
      if r.result.None? || !r.result.value.applied || !r.result.value.verified { continue; }
      if r.position.None? { continue; }
      var squared := SquaredDistance(r.position.value, base);
      if !departed && AtLeast(squared, departure) {
        departed := true;
      } else if departed && AtMost(squared, radius) {
        returned := true;
      }
    }
    assert receipts[..|receipts|] == receipts;
    return departed && returned;
  }

  lemma ReturnStep(receipts: seq<Receipt>, k: nat, base: Cell, departure: real, radius: real)
    requires k < |receipts|
    ensures WentAndCameBack(receipts[..k + 1], base, departure, radius) <==>
            || WentAndCameBack(receipts[..k], base, departure, radius)
            || (BackAt(receipts[k], base, radius) && exists i :: 0 <= i < k && AwayAt(receipts[i], base, departure))
  {
    var before, after := receipts[..k], receipts[..k + 1];
    assert after == before + [receipts[k]];
    assert forall i | 0 <= i < k :: after[i] == receipts[i];
    if WentAndCameBack(before, base, departure, radius) {
      var i, j :| 0 <= i < j < k && AwayAt(before[i], base, departure) && BackAt(before[j], base, radius);
      assert AwayAt(after[i], base, departure) && BackAt(after[j], base, radius);
    }
    if i :| BackAt(receipts[k], base, radius) && 0 <= i < k && AwayAt(receipts[i], base, departure) {
      assert AwayAt(after[i], base, departure) && BackAt(after[k], base, radius);
    }
  }

  // ---- Blueprint ----

  datatype Requirement = Requirement(offset: Cell, block: string)

  function Translate(base: Cell, offset: Cell): Cell {
    Cell(base.x + offset.x, base.y + offset.y, base.z + offset.z)
  }

  /** A cell keeps its offset from the base. */
  lemma TranslateKeepsOffset(base: Cell, offset: Cell)
    ensures var cell := Translate(base, offset);
            Cell(cell.x - base.x, cell.y - base.y, cell.z - base.z) == offset
  {
  }

  ghost predicate DistinctOffsets(cells: seq<Requirement>) {
    forall i, j | 0 <= i < j < |cells| :: cells[i].offset != cells[j].offset
  }

  /** A row of the blueprint's parameters; an offset that is not integral and a block
      name that is blank or no text are absent. */
  datatype Row = Row(offset: Option<Cell>, block: Option<string>) {
    predicate Complete() { offset.Some? && block.Some? }
  }

  ghost predicate SameOffset(rows: seq<Row>, i: nat, j: nat)
    requires i < |rows| && j < |rows|
  {
    rows[i].offset == rows[j].offset
  }

  /** The parser accepts exactly the non-empty lists of complete rows with pairwise
      distinct offsets, and keeps them in order. */
  method ParseBlueprint(rows: seq<Row>) returns (cells: Option<seq<Requirement>>)
    ensures cells.Some? <==> && rows != [] && (forall i | 0 <= i < |rows| :: rows[i].Complete())
                             && (forall i, j | 0 <= i < j < |rows| :: !SameOffset(rows, i, j))
    ensures cells.Some? ==> && |cells.value| == |rows| && DistinctOffsets(cells.value)
                            && forall i | 0 <= i < |rows| ::
                                 rows[i] == Row(Some(cells.value[i].offset), Some(cells.value[i].block))
  {
    if rows == [] { return None; }
    var parsed: seq<Requirement>, seen: set<Cell> := [], {};
    for k := 0 to |rows|
      invariant |parsed| == k
      invariant forall i | 0 <= i < k :: rows[i] == Row(Some(parsed[i].offset), Some(parsed[i].block))
      invariant forall i | 0 <= i < k :: parsed[i].offset in seen
      invariant forall cell | cell in seen :: exists i | 0 <= i < k :: parsed[i].offset == cell
      invariant DistinctOffsets(parsed)
    {
      if rows[k].offset.None? { return None; }
      var offset := rows[k].offset.value;
      if offset in seen {
        ghost var i :| 0 <= i < k && parsed[i].offset == offset;
        assert SameOffset(rows, i, k);
        return None;
      }
      if rows[k].block.None? { return None; }
      seen := seen + {offset};
      parsed := parsed + [Requirement(offset, rows[k].block.value)];
    }
    return Some(parsed);
  }

  /** A change of one cell: a verified placement of a block, or the cell broken. */
  datatype Event = Event(cell: Cell, block: Option<string>)

  predicate ProvesPlacement(r: Receipt) {
    && r.result.Some? && r.result.value.position.Some? && r.verified && r.result.value.verified
    && r.result.value.applied && r.result.value.code == "BLOCK_PLACED"
    && r.result.value.placed.Some? && r.result.value.requested == r.result.value.placed
  }

  function Breaks(broken: seq<Option<Cell>>): seq<Event> {
    if broken == [] then []
    else
      var front, last := Breaks(broken[..|broken| - 1]), broken[|broken| - 1];
      if last.Some? then front + [Event(last.value, None)] else front
  }

  /** The changes one receipt reports, in order. */
  function Events(r: Receipt): seq<Event> {
    if r.result.None? then []
    else if r.actionType == "place_block" then
      if ProvesPlacement(r) then [Event(r.result.value.position.value, r.result.value.placed)] else []
    else if r.actionType == "collect_block" && r.result.value.broken.Some? then Breaks(r.result.value.broken.value)
    else []
  }

  function History(receipts: seq<Receipt>): seq<Event> {
    if receipts == [] then [] else History(receipts[..|receipts| - 1]) + Events(receipts[|receipts| - 1])
  }

  /** The last event of the history that touches the cell placed that block. */
  ghost predicate LastPlaced(history: seq<Event>, cell: Cell, block: string) {
    exists k :: 0 <= k < |history| && history[k] == Event(cell, Some(block)) && NotTouchedAfter(history, cell, k)
  }

  ghost predicate NotTouchedAfter(history: seq<Event>, cell: Cell, k: nat) {
    forall l | k < l < |history| :: history[l].cell != cell
  }

  ghost predicate BlueprintStands(cells: seq<Requirement>, base: Cell, history: seq<Event>) {
    forall i | 0 <= i < |cells| :: LastPlaced(history, Translate(base, cells[i].offset), cells[i].block)
  }

  /** What a record of known cells says after a history, for the cells expected. */
  function Replay(expected: set<Cell>, history: seq<Event>): map<Cell, Option<string>> {
    if history == [] then map[]
    else
      var known, e := Replay(expected, history[..|history| - 1]), history[|history| - 1];
      if e.cell in expected then known[e.cell := e.block] else known
  }

  lemma {:induction false} ReplayExact(expected: set<Cell>, history: seq<Event>, cell: Cell, block: string)
    requires cell in expected
    ensures (cell in Replay(expected, history) && Replay(expected, history)[cell] == Some(block))
            <==> LastPlaced(history, cell, block)
  {
    if history != [] {
      var front, e := history[..|history| - 1], history[|history| - 1];
      ReplayExact(expected, front, cell, block);
      var n := |history| - 1;
      if e.cell == cell {
        if e.block == Some(block) {
          assert history[n] == Event(cell, Some(block)) && NotTouchedAfter(history, cell, n);
        }
      } else {
        if LastPlaced(front, cell, block) {
          var k :| 0 <= k < |front| && front[k] == Event(cell, Some(block)) && NotTouchedAfter(front, cell, k);
          assert history[k] == front[k];
          assert forall l | k < l < |history| :: l == n || history[l] == front[l];
          assert NotTouchedAfter(history, cell, k);
        }
        if LastPlaced(history, cell, block) {
          var k :| 0 <= k < |history| && history[k] == Event(cell, Some(block)) && NotTouchedAfter(history, cell, k);
          assert front[k] == history[k];
          assert forall l | k < l < |front| :: front[l] == history[l];
          assert NotTouchedAfter(front, cell, k);
        }
      }
    }
  }

  lemma ReplayConcat(expected: set<Cell>, a: seq<Event>, e: Event)
    ensures Replay(expected, a + [e]) ==
            if e.cell in expected then Replay(expected, a)[e.cell := e.block] else Replay(expected, a)
  {
    assert (a + [e])[..|a|] == a;
  }

  /** The loop over the broken blocks of one receipt. */
  method RecordBroken(expected: set<Cell>, ghost before: seq<Event>, known: map<Cell, Option<string>>,
                      broken: seq<Option<Cell>>) returns (after: map<Cell, Option<string>>)
    requires known == Replay(expected, before)
    ensures after == Replay(expected, before + Breaks(broken))
  {
    after := known;
    assert before + [] == before;
    for i := 0 to |broken|
      invariant after == Replay(expected, before + Breaks(broken[..i]))
    {
      assert broken[..i + 1][..i] == broken[..i];
      if broken[i].Some? {
        ReplayConcat(expected, before + Breaks(broken[..i]), Event(broken[i].value, None));
        assert before + Breaks(broken[..i]) + [Event(broken[i].value, None)] == before + Breaks(broken[..i + 1]);
        if broken[i].value in expected {
          after := after[broken[i].value := None];
        }
      }
    }
    assert broken[..|broken|] == broken;
  }

  method RecordReceipt(expected: set<Cell>, ghost before: seq<Event>, known: map<Cell, Option<string>>, r: Receipt)
    returns (after: map<Cell, Option<string>>)
    requires known == Replay(expected, before)
    ensures after == Replay(expected, before + Events(r))
  {
    after := known;
    assert before + [] == before;
    if r.result.None? { return; }
    var evidence := r.result.value;
    if r.actionType == "place_block" {
      if ProvesPlacement(r) {
        ReplayConcat(expected, before, Event(evidence.position.value, evidence.placed));
        if evidence.position.value in expected {
          after := after[evidence.position.value := evidence.placed];
        }
      }
    } else if r.actionType == "collect_block" {
      if evidence.broken.Some? {
        after := RecordBroken(expected, before, known, evidence.broken.value);
      }
    }
  }

  /** The evaluator: true exactly when the anchor is known and, for every cell, the last
      event touching it is a verified placement of the required block. */
  method BlueprintComplete(cells: seq<Requirement>, finalAnchor: Option<Cell>,
                           receipts: seq<Receipt>) returns (ok: bool)
    requires DistinctOffsets(cells)
    ensures var base := AnchorAt(finalAnchor, receipts);
            ok <==> base.Some? && BlueprintStands(cells, base.value, History(receipts))
  {
    var base := FindAnchor(finalAnchor, receipts);
    if base.None? { return false; }
    var expected: map<Cell, string> := map[];
    for i := 0 to |cells|
      invariant forall j | 0 <= j < i ::
                  Translate(base.value, cells[j].offset) in expected &&
                  expected[Translate(base.value, cells[j].offset)] == cells[j].block
    {
      CellsStayDistinct(cells, base.value, i);
      expected := expected[Translate(base.value, cells[i].offset) := cells[i].block];
    }
    var known: map<Cell, Option<string>> := map[];
    for k := 0 to |receipts|
      invariant known == Replay(expected.Keys, History(receipts[..k]))
    {
      assert receipts[..k + 1][..k] == receipts[..k];
      known := RecordReceipt(expected.Keys, History(receipts[..k]), known, receipts[k]);
    }
    assert receipts[..|receipts|] == receipts;
    ok := true;
    for i := 0 to |cells|
      invariant ok <==> forall j | 0 <= j < i ::
                          LastPlaced(History(receipts), Translate(base.value, cells[j].offset), cells[j].block)
    {
      var cell := Translate(base.value, cells[i].offset);
      ReplayExact(expected.Keys, History(receipts), cell, cells[i].block);
      if cell !in known || known[cell] != Some(expected[cell]) { ok := false; }
    }
  }

  /** Translated cells stay pairwise distinct. */
  lemma CellsStayDistinct(cells: seq<Requirement>, base: Cell, i: nat)
    requires DistinctOffsets(cells) && i < |cells|
    ensures forall j | 0 <= j < i :: Translate(base, cells[j].offset) != Translate(base, cells[i].offset)
  {
    forall j | 0 <= j < i ensures Translate(base, cells[j].offset) != Translate(base, cells[i].offset) {
      assert cells[j].offset != cells[i].offset;
    }
  }

  lemma {:induction false} IrrelevantEvents(expected: set<Cell>, history: seq<Event>, events: seq<Event>)
    requires forall k | 0 <= k < |events| :: events[k].cell !in expected
    ensures Replay(expected, history + events) == Replay(expected, history)
  {
    if events == [] {
      assert history + events == history;
    } else {
      var front := events[..|events| - 1];
      IrrelevantEvents(expected, history, front);
      assert history + events == history + front + [events[|events| - 1]];
      ReplayConcat(expected, history + front, events[|events| - 1]);
    }
  }

  lemma {:induction false} SameContinuation(expected: set<Cell>, a: seq<Event>, b: seq<Event>, events: seq<Event>)
    requires Replay(expected, a) == Replay(expected, b)
    ensures Replay(expected, a + events) == Replay(expected, b + events)
  {
    if events == [] {
      assert a + events == a && b + events == b;
    } else {
      var front, last := events[..|events| - 1], events[|events| - 1];
      SameContinuation(expected, a, b, front);
      assert a + events == a + front + [last] && b + events == b + front + [last];
      ReplayConcat(expected, a + front, last);
      ReplayConcat(expected, b + front, last);
    }
  }

  lemma HistorySnoc(receipts: seq<Receipt>, r: Receipt)
    ensures History(receipts + [r]) == History(receipts) + Events(r)
  {
    assert (receipts + [r])[..|receipts|] == receipts;
  }

  lemma {:induction false} HistoryConcat(a: seq<Receipt>, b: seq<Receipt>)
    ensures History(a + b) == History(a) + History(b)
  {
    if b == [] {
      assert a + b == a;
    } else {
      var front, last := b[..|b| - 1], b[|b| - 1];
      assert b == front + [last];
      HistoryConcat(a, front);
      Associative(a, front, [last]);
      HistorySnoc(a + front, last);
      HistorySnoc(front, last);
      Associative(History(a), History(front), Events(last));
    }
  }

  /** Receipts that touch no cell of the blueprint are irrelevant wherever they occur. */
  lemma IrrelevantReceipt(expected: set<Cell>, before: seq<Receipt>, r: Receipt, after: seq<Receipt>)
    requires forall k | 0 <= k < |Events(r)| :: Events(r)[k].cell !in expected
    ensures Replay(expected, History(before + [r] + after)) == Replay(expected, History(before + after))
  {
    HistoryConcat(before + [r], after);
    HistoryConcat(before, [r]);
    HistoryConcat(before, after);
    assert History([r]) == Events(r);
    IrrelevantEvents(expected, History(before), Events(r));
    SameContinuation(expected, History(before) + Events(r), History(before), History(after));
  }

  /** ... and change no verdict about the blueprint. */
  lemma VerdictIgnoresReceipt(cells: seq<Requirement>, base: Cell, before: seq<Receipt>, r: Receipt,
                              after: seq<Receipt>)
    requires forall i, k | 0 <= i < |cells| && 0 <= k < |Events(r)| ::
               Events(r)[k].cell != Translate(base, cells[i].offset)
    ensures BlueprintStands(cells, base, History(before + [r] + after)) <==>
            BlueprintStands(cells, base, History(before + after))
  {
    var expected := set i | 0 <= i < |cells| :: Translate(base, cells[i].offset);
    IrrelevantReceipt(expected, before, r, after);
    forall i | 0 <= i < |cells|
      ensures LastPlaced(History(before + [r] + after), Translate(base, cells[i].offset), cells[i].block) <==>
              LastPlaced(History(before + after), Translate(base, cells[i].offset), cells[i].block)
    {
      ReplayExact(expected, History(before + [r] + after), Translate(base, cells[i].offset), cells[i].block);
      ReplayExact(expected, History(before + after), Translate(base, cells[i].offset), cells[i].block);
    }
  }

  // ---- Which receipts count ----

  /** The receipt proves nothing about where the run was. */
  predicate ProvesNothing(r: Receipt) {
    || r.actionType !in ["goto", "goto_entity", "move_away", "follow_player"] || !r.verified
    || r.result.None? || !r.result.value.applied || !r.result.value.verified || r.position.None?
  }

  lemma NeitherAwayNorBack(r: Receipt, base: Cell, departure: real, radius: real)
    ensures ProvesNothing(r) ==> !AwayAt(r, base, departure) && !BackAt(r, base, radius)
    ensures !ProvesNothing(r) ==>
              && (AwayAt(r, base, departure) <==> AtLeast(SquaredDistance(r.position.value, base), departure))
              && (BackAt(r, base, radius) <==> AtMost(SquaredDistance(r.position.value, base), radius))
  {
  }

  lemma WithoutReceipt(before: seq<Receipt>, r: Receipt, after: seq<Receipt>, i: nat)
    requires i < |before + after|
    ensures var all := before + [r] + after;
            all[if i < |before| then i else i + 1] == (before + after)[i]
  {
  }

  /** A receipt that proves no movement can be left out anywhere without changing whether
      the run went away and came back. */
  lemma UnprovenMovementIgnored(before: seq<Receipt>, r: Receipt, after: seq<Receipt>, base: Cell, departure: real,
                                radius: real)
    requires ProvesNothing(r)
    ensures WentAndCameBack(before + [r] + after, base, departure, radius) <==>
            WentAndCameBack(before + after, base, departure, radius)
  {
    var all, less, m := before + [r] + after, before + after, |before|;
    NeitherAwayNorBack(r, base, departure, radius);
    if i, j :| 0 <= i < j < |less| && AwayAt(less[i], base, departure) && BackAt(less[j], base, radius) {
      WithoutReceipt(before, r, after, i);
      WithoutReceipt(before, r, after, j);
      var i', j' := if i < m then i else i + 1, if j < m then j else j + 1;
      assert AwayAt(all[i'], base, departure) && BackAt(all[j'], base, radius);
    }
    if i, j :| 0 <= i < j < |all| && AwayAt(all[i], base, departure) && BackAt(all[j], base, radius) {
      assert all[m] == r && i != m && j != m;
      var i', j' := if i < m then i else i - 1, if j < m then j else j - 1;
      WithoutReceipt(before, r, after, i');
      WithoutReceipt(before, r, after, j');
      assert AwayAt(less[i'], base, departure) && BackAt(less[j'], base, radius);
    }
  }

  /** A placement counts exactly when receipt and result are verified, the result was
      applied with the right code, and the block placed is the block requested. */
  lemma PlacementCounts(r: Receipt)
    requires r.actionType == "place_block"
    ensures Events(r) ==
            (if r.verified && r.result.Some? && r.result.value.verified && r.result.value.applied
                && r.result.value.code == "BLOCK_PLACED" && r.result.value.position.Some?
                && r.result.value.placed.Some? && r.result.value.requested == r.result.value.placed
             then [Event(r.result.value.position.value, r.result.value.placed)] else [])
  {
  }

  /** A collection breaks each reported cell, in order, and nothing else. */
  lemma {:induction false} BreaksExact(broken: seq<Option<Cell>>)
    ensures forall k | 0 <= k < |Breaks(broken)| ::
              Breaks(broken)[k].block.None? && Some(Breaks(broken)[k].cell) in broken
    ensures forall cell | Some(cell) in broken :: Event(cell, None) in Breaks(broken)
  {
    if broken != [] { BreaksExact(broken[..|broken| - 1]); }
  }

  lemma CollectionBreaks(r: Receipt)
    requires r.actionType != "place_block"
    ensures Events(r) == if r.actionType == "collect_block" && r.result.Some? && r.result.value.broken.Some?
                         then Breaks(r.result.value.broken.value) else []
  {
  }
}
