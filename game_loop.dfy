/**
 * One pass of the main loop: the frame's input events, the timed descent,
 * the move, and the bookkeeping that either settles a landed piece (rows
 * dropped, score and level updated, the next piece spawned) or lifts the
 * moving piece back off the playfield.
 *
 * GameState and Step give the meaning of a pass as a value; class Game is
 * the mutable state of main and its Tick method is proved to produce
 * exactly Step's result.
 */
module GameLoop {
  import opened Shapes
  import opened Board
  import opened Pieces
  import opened Playfield
  import opened Progression

  /**
   * The state main keeps between passes: the playfield, the seven reusable
   * pieces (slot k holds shape k + 1, with whatever rotation it was left
   * in), the index of the current piece, and the counters.
   */
  datatype GameState = GameState(
    grid: Grid,
    slots: seq<PieceState>,
    cur: int,
    score: int,
    level: int,
    totalRows: int)

  /** What holds at every point of a pass. */
  ghost predicate Consistent(gs: GameState) {
    CellsInRange(gs.grid) && NoFullRows(gs.grid) &&
    |gs.slots| == NPIECES && 0 <= gs.cur < NPIECES &&
    (forall k :: 0 <= k < NPIECES ==> ValidPiece(gs.slots[k]) && gs.slots[k].shape == k + 1) &&
    gs.level >= 1 && gs.score >= 0 && gs.totalRows >= 0
  }

  /** What holds between passes: in addition, the current piece has not landed. */
  ghost predicate GameInv(gs: GameState) {
    Consistent(gs) && !gs.slots[gs.cur].landed
  }

  /** The catalog entry for slot k, as the pieces array is initialised. */
  ghost function CatalogPiece(k: int): (p: PieceState)
    requires 0 <= k < NPIECES
    ensures ValidPiece(p) && p.shape == k + 1 && !p.landed
  {
    PieceState(k + 1, 0, 0, 0, 0, Catalog(k), false)
  }

  /** The slots as the pieces array is initialised, before any spawn. */
  ghost function CatalogSlots(): (ss: seq<PieceState>)
    ensures |ss| == NPIECES && forall k :: 0 <= k < NPIECES ==> ss[k] == CatalogPiece(k)
  {
    seq(NPIECES, k requires 0 <= k < NPIECES => CatalogPiece(k))
  }

  /** The state main starts from: an empty playfield, the catalog pieces, and piece r spawned. */
  ghost function Initial(r: int): (gs: GameState)
    requires 0 <= r < NPIECES
    ensures GameInv(gs)
    ensures gs.cur == r && gs.score == 0 && gs.level == 1 && gs.totalRows == 0
    ensures gs.grid == EmptyGrid()
    ensures gs.slots[r] == Spawned(CatalogPiece(r))
    ensures forall k :: 0 <= k < NPIECES && k != r ==> gs.slots[k] == CatalogPiece(k)
  {
    EmptyGridClean();
    Respawned(GameState(EmptyGrid(), CatalogSlots(), r, 0, 1, 0), r)
  }

  /** b differs from a at most in the state of a's current piece. */
  ghost predicate OnlyCurrentChanged(a: GameState, b: GameState)
    requires 0 <= a.cur < |a.slots| == |b.slots|
  {
    b == a.(slots := a.slots[a.cur := b.slots[a.cur]])
  }

  /** The current piece replaced by p. */
  ghost function WithCurrent(gs: GameState, p: PieceState): (r: GameState)
    requires Consistent(gs) && ValidPiece(p) && p.shape == gs.slots[gs.cur].shape
    ensures Consistent(r)
  {
    gs.(slots := gs.slots[gs.cur := p])
  }

  /** The event loop: every event of the frame is handed to the current piece, in order. */
  ghost function AfterEvents(gs: GameState, events: seq<Event>): (r: GameState)
    requires Consistent(gs)
    ensures Consistent(r)
    ensures OnlyCurrentChanged(gs, r)
  {
    WithCurrent(gs, HandleAll(gs.slots[gs.cur], events, gs.grid))
  }

  /**
   * The descent block: when the level's delay has passed and the piece is
   * not already moving down, one extra downward move.
   */
  ghost function AfterDescent(gs: GameState, elapsed: int): (r: GameState)
    requires Consistent(gs)
    ensures Consistent(r)
    ensures OnlyCurrentChanged(gs, r)
  {
    var p := gs.slots[gs.cur];
    if DescentDue(elapsed, gs.level) && p.vely == 0 then WithCurrent(gs, Descended(p, gs.grid)) else gs
  }

  /** The unconditional piece_move of every pass. */
  ghost function AfterMove(gs: GameState): (r: GameState)
    requires Consistent(gs)
    ensures Consistent(r)
    ensures OnlyCurrentChanged(gs, r)
    ensures var p := r.slots[r.cur]; !p.landed ==> !Collides(p.matrix, p.posx, p.posy, r.grid)
  {
    WithCurrent(gs, Moved(gs.slots[gs.cur], gs.grid))
  }

  /** The counters after a landing that cleared n rows, scored at the level from before the landing. */
  function Counted(gs: GameState, n: int): (r: GameState)
    requires 0 <= n < |POINTS|
    ensures r.grid == gs.grid && r.slots == gs.slots && r.cur == gs.cur
    ensures r.totalRows == gs.totalRows + n
    ensures r.score == gs.score + gs.level * POINTS[n]
    ensures r.level == gs.level + 1 <==> n != 0 && UpdateLevel(r.totalRows)
    ensures r.level == gs.level || r.level == gs.level + 1
  {
    var total := gs.totalRows + n;
    gs.(score := gs.score + UpdateScore(gs.level, n),
        totalRows := total,
        level := if n != 0 && UpdateLevel(total) then gs.level + 1 else gs.level)
  }

  /** piece_spawn: slot r is reset to the top of the playfield and becomes the current piece. */
  function Respawned(gs: GameState, r: int): (s: GameState)
    requires 0 <= r < |gs.slots|
    ensures s.grid == gs.grid && s.score == gs.score && s.level == gs.level && s.totalRows == gs.totalRows
    ensures |s.slots| == |gs.slots| && s.cur == r && !s.slots[r].landed
    ensures forall k :: 0 <= k < |gs.slots| && k != r ==> s.slots[k] == gs.slots[k]
  {
    gs.(slots := gs.slots[r := Spawned(gs.slots[r])], cur := r)
  }

  /**
   * The bookkeeping at the end of a pass. The piece is written into the
   * playfield; if it landed, the full rows are dropped, the counters are
   * updated with the level from before the pass, and slot r is spawned as
   * the next piece; otherwise the piece is erased again.
   */
  ghost function Settled(gs: GameState, r: int): (s: GameState)
    requires Consistent(gs) && 0 <= r < NPIECES
    requires var p := gs.slots[gs.cur]; !p.landed ==> !Collides(p.matrix, p.posx, p.posy, gs.grid)
    ensures GameInv(s)
  {
    var p := gs.slots[gs.cur];
    var g1 := Added(gs.grid, p.matrix, p.posx, p.posy, p.shape);
    AddedInRange(gs.grid, p.matrix, p.posx, p.posy, p.shape);
    if p.landed then
      AtMostFourFullRows(gs.grid, p.matrix, p.posx, p.posy, p.shape);
      DroppedIsClean(g1);
      Respawned(Counted(gs.(grid := Dropped(g1)), |FullRows(g1, 0)|), r)
    else
      RemoveUndoesAdd(gs.grid, p.matrix, p.posx, p.posy, p.shape);
      gs.(grid := Removed(g1, p.matrix, p.posx, p.posy))
  }

  /** The current piece as it stands after the move of a pass, before the bookkeeping. */
  ghost function Landing(gs: GameState, events: seq<Event>, elapsed: int): (p: PieceState)
    requires GameInv(gs)
    ensures ValidPiece(p) && p.shape == gs.slots[gs.cur].shape
  {
    var m := AfterMove(AfterDescent(AfterEvents(gs, events), elapsed));
    m.slots[m.cur]
  }

  /**
   * One pass of the main loop, given the frame's events, the milliseconds
   * on the game timer, and the slot the random draw would pick.
   */
  ghost function Step(gs: GameState, events: seq<Event>, elapsed: int, r: int): (s: GameState)
    requires GameInv(gs) && 0 <= r < NPIECES
    ensures GameInv(s)
  {
    Settled(AfterMove(AfterDescent(AfterEvents(gs, events), elapsed)), r)
  }

  /**
   * A pass whose piece does not land leaves the playfield, the counters and
   * the choice of current piece as they were; only the piece itself moves.
   */
  lemma StepWithoutLanding(gs: GameState, events: seq<Event>, elapsed: int, r: int)
    requires GameInv(gs) && 0 <= r < NPIECES
    requires !Landing(gs, events, elapsed).landed
    ensures var s := Step(gs, events, elapsed, r);
      s.grid == gs.grid && s.cur == gs.cur && s.score == gs.score &&
      s.level == gs.level && s.totalRows == gs.totalRows &&
      s.slots == gs.slots[gs.cur := Landing(gs, events, elapsed)]
  {
    var m := AfterMove(AfterDescent(AfterEvents(gs, events), elapsed));
    var p := m.slots[m.cur];
    RemoveUndoesAdd(m.grid, p.matrix, p.posx, p.posy, p.shape);
  }

  /**
   * A pass whose piece lands writes it into the playfield, drops the n full
   * rows that result (at most four), adds n to the total and level times
   * POINTS[n] to the score, raises the level by one exactly when n is not
   * zero and the new total lies in a level-up window, and makes the
   * spawned slot r current.
   */
  lemma StepWithLanding(gs: GameState, events: seq<Event>, elapsed: int, r: int)
    requires GameInv(gs) && 0 <= r < NPIECES
    requires Landing(gs, events, elapsed).landed
    ensures var p := Landing(gs, events, elapsed);
      var g1 := Added(gs.grid, p.matrix, p.posx, p.posy, p.shape);
      var n := |FullRows(g1, 0)|;
      var s := Step(gs, events, elapsed, r);
      n <= N &&
      s.grid == Dropped(g1) &&
      s.totalRows == gs.totalRows + n &&
      s.score == gs.score + gs.level * POINTS[n] &&
      (s.level == gs.level + 1 <==> n != 0 && UpdateLevel(s.totalRows)) &&
      (s.level == gs.level || s.level == gs.level + 1) &&
      s.cur == r &&
      s.slots[r] == Spawned((gs.slots[gs.cur := p])[r])
  {
    var m := AfterMove(AfterDescent(AfterEvents(gs, events), elapsed));
    SettledWhenLanded(m, r);
  }

  /** The bookkeeping for a landed piece, stated on the state it starts from. */
  lemma SettledWhenLanded(m: GameState, r: int)
    requires Consistent(m) && 0 <= r < NPIECES && m.slots[m.cur].landed
    ensures var p := m.slots[m.cur];
      var g1 := Added(m.grid, p.matrix, p.posx, p.posy, p.shape);
      var n := |FullRows(g1, 0)|;
      var s := Settled(m, r);
      n <= N &&
      s.grid == Dropped(g1) &&
      s.totalRows == m.totalRows + n &&
      s.score == m.score + m.level * POINTS[n] &&
      (s.level == m.level + 1 <==> n != 0 && UpdateLevel(s.totalRows)) &&
      (s.level == m.level || s.level == m.level + 1) &&
      s.cur == r &&
      s.slots == m.slots[r := Spawned(m.slots[r])]
  {
    var p := m.slots[m.cur];
    AtMostFourFullRows(m.grid, p.matrix, p.posx, p.posy, p.shape);
  }

  /** The counters never go down, and the total grows by at most four rows per pass. */
  lemma StepCountersGrow(gs: GameState, events: seq<Event>, elapsed: int, r: int)
    requires GameInv(gs) && 0 <= r < NPIECES
    ensures var s := Step(gs, events, elapsed, r);
      gs.score <= s.score && gs.level <= s.level <= gs.level + 1 &&
      gs.totalRows <= s.totalRows <= gs.totalRows + N
  {
    if Landing(gs, events, elapsed).landed {
      StepWithLanding(gs, events, elapsed, r);
    } else {
      StepWithoutLanding(gs, events, elapsed, r);
    }
  }

  /** A landing that completes no row leaves the piece's cells written into the playfield. */
  lemma LandingWithoutClearKeepsPiece(gs: GameState, events: seq<Event>, elapsed: int, r: int)
    requires GameInv(gs) && 0 <= r < NPIECES
    requires var p := Landing(gs, events, elapsed);
      p.landed && |FullRows(Added(gs.grid, p.matrix, p.posx, p.posy, p.shape), 0)| == 0
    ensures var p := Landing(gs, events, elapsed);
      Step(gs, events, elapsed, r).grid == Added(gs.grid, p.matrix, p.posx, p.posy, p.shape)
  {
    var p := Landing(gs, events, elapsed);
    DroppedWithoutFullRows(Added(gs.grid, p.matrix, p.posx, p.posy, p.shape));
  }

  /** The initialiser of the pieces array: one fresh piece per catalog entry. */
  method NewPieces() returns (ps: seq<Piece>)
    ensures |ps| == NPIECES
    ensures forall i :: 0 <= i < NPIECES ==> fresh(ps[i]) && fresh(ps[i].matrix)
    ensures forall i :: 0 <= i < NPIECES ==> ps[i].Valid() && ps[i].State() == CatalogPiece(i)
    ensures forall i, j :: 0 <= i < j < NPIECES ==> ps[i] != ps[j] && ps[i].matrix != ps[j].matrix
  {
    ps := NewPiecesFrom(0);
  }

  /** The entries k .. NPIECES - 1 of the pieces array, each a fresh piece. */
  method NewPiecesFrom(k: nat) returns (ps: seq<Piece>)
    requires k <= NPIECES
    ensures |ps| == NPIECES - k
    ensures forall i :: 0 <= i < |ps| ==> fresh(ps[i]) && fresh(ps[i].matrix)
    ensures forall i :: 0 <= i < |ps| ==> ps[i].Valid() && ps[i].State() == CatalogPiece(k + i)
    ensures forall i, j :: 0 <= i < j < |ps| ==> ps[i] != ps[j] && ps[i].matrix != ps[j].matrix
    decreases NPIECES - k
  {
    if k == NPIECES {
      return [];
    }
    var p := new Piece(k + 1, Catalog(k));
    var rest := NewPiecesFrom(k + 1);
    ps := [p] + rest;
  }

  /**
   * The state main works on: gPlayfield, the pieces array, current_piece
   * (an index into the array) and the three counters.
   */
  class Game {
    const field: array2<int>
    const pieces: seq<Piece>
    var current: int
    var score: int
    var level: int
    var totalRows: int

    /** The pieces and their matrices. */
    ghost function PieceObjects(): set<object> {
      (set i | 0 <= i < |pieces| :: pieces[i] as object) + (set i | 0 <= i < |pieces| :: pieces[i].matrix as object)
    }

    /** The state of every piece slot. */
    ghost function Slots(): (ss: seq<PieceState>)
      reads PieceObjects()
      ensures |ss| == |pieces| && forall i :: 0 <= i < |pieces| ==> ss[i] == pieces[i].State()
    {
      seq(|pieces|, i requires 0 <= i < |pieces| reads PieceObjects() => pieces[i].State())
    }

    ghost function State(): GameState
      reads this, field, PieceObjects()
    {
      GameState(Cells(field), Slots(), current, score, level, totalRows)
    }

    /** The layout the methods rely on: the array sizes and seven distinct, well-formed pieces. */
    ghost predicate Wired()
      reads this, PieceObjects()
    {
      field.Length0 == HEIGHT && field.Length1 == WIDTH &&
      |pieces| == NPIECES && 0 <= current < NPIECES &&
      (forall i :: 0 <= i < NPIECES ==> pieces[i].Valid() && pieces[i].matrix != field) &&
      (forall i, j :: 0 <= i < j < NPIECES ==> pieces[i] != pieces[j] && pieces[i].matrix != pieces[j].matrix)
    }

    /** Within a pass, before the bookkeeping. */
    ghost predicate MidPass()
      reads this, field, PieceObjects()
    {
      Wired() && Consistent(State())
    }

    /** Between passes. */
    ghost predicate Valid()
      reads this, field, PieceObjects()
    {
      Wired() && GameInv(State())
    }

    /** initialize clears the playfield; main sets up the pieces and the counters and spawns the first piece. */
    constructor (r: int)
      requires 0 <= r < NPIECES
      ensures Valid() && State() == Initial(r)
    {
      var ps := NewPieces();
      field := new int[HEIGHT, WIDTH];
      pieces := ps;
      current, score, level, totalRows := r, 0, 1, 0;
      new;
      Clear(field);
      SlotsAreCatalog();
      assert Wired();
      assert State() == GameState(EmptyGrid(), CatalogSlots(), r, 0, 1, 0);
      SpawnNext(r);
      InitialIsValid(r);
    }

    /** The state main starts from is one the loop can run on. */
    lemma InitialIsValid(r: int)
      requires 0 <= r < NPIECES && Wired() && State() == Initial(r)
      ensures Valid()
    {
    }

    /** Seven pieces in their catalog state make up the catalog slots. */
    lemma SlotsAreCatalog()
      requires |pieces| == NPIECES
      requires forall i :: 0 <= i < NPIECES ==> pieces[i].State() == CatalogPiece(i)
      ensures Slots() == CatalogSlots()
    {
    }

    /**
     * The frame of a pass: when only piece k (of a layout that was wired)
     * changed, the slots are the old ones with slot k replaced.
     */
    twostate lemma OnlySlotChanged(k: int)
      requires old(Wired()) && 0 <= k < NPIECES && pieces[k].Valid() && 0 <= current < NPIECES
      requires forall j :: 0 <= j < NPIECES && j != k ==> unchanged(pieces[j], pieces[j].matrix)
      ensures Wired()
      ensures Slots() == old(Slots())[k := pieces[k].State()]
    {
      forall j | 0 <= j < NPIECES
        ensures pieces[j].Valid()
        ensures Slots()[j] == old(Slots())[k := pieces[k].State()][j]
      {
        if j != k {
          assert pieces[j].State() == old(pieces[j].State());
        }
      }
    }

    /** The event loop of one pass: every event goes to the current piece; a quit request is remembered. */
    method HandleEvents(events: seq<Event>) returns (quit: bool)
      requires Valid()
      modifies pieces[current], pieces[current].matrix
      ensures Valid()
      ensures State() == AfterEvents(old(State()), events)
      ensures quit == (QuitRequest in events)
    {
      ghost var gs := State();
      var p := pieces[current];
      quit := false;
      var i := 0;
      while i < |events|
        invariant 0 <= i <= |events|
        invariant p.Valid()
        invariant p.State() == HandleAll(gs.slots[current], events[..i], gs.grid)
        invariant quit == (QuitRequest in events[..i])
      {
        if events[i] == QuitRequest {
          quit := true;
        }
        p.HandleEvent(events[i], field);
        assert events[..i + 1][..i] == events[..i];
        i := i + 1;
      }
      assert events[..|events|] == events;
      OnlySlotChanged(current);
    }

    /**
     * The descent block of one pass; restart reports whether the game
     * timer is restarted, which happens whenever the delay has passed.
     */
    method TimedDescent(elapsed: int) returns (restart: bool)
      requires Valid()
      modifies pieces[current]
      ensures MidPass()
      ensures State() == AfterDescent(old(State()), elapsed)
      ensures restart == DescentDue(elapsed, old(level))
    {
      restart := DescentDue(elapsed, level);
      if restart && pieces[current].vely == 0 {
        DescendCurrent();
      }
    }

    /** The current piece takes the extra downward step. */
    method DescendCurrent()
      requires MidPass()
      modifies pieces[current]
      ensures MidPass()
      ensures var gs := old(State()); State() == WithCurrent(gs, Descended(gs.slots[gs.cur], gs.grid))
    {
      pieces[current].Descend(field);
      OnlySlotChanged(current);
    }

    /** The piece_move of one pass. */
    method MovePiece()
      requires MidPass()
      modifies pieces[current]
      ensures MidPass()
      ensures State() == AfterMove(old(State()))
    {
      var p := pieces[current];
      p.Move(field);
      OnlySlotChanged(current);
    }

    /** The bookkeeping of one pass. */
    method Settle(r: int)
      requires MidPass() && 0 <= r < NPIECES
      requires var p := State().slots[current]; !p.landed ==> !Collides(p.matrix, p.posx, p.posy, Cells(field))
      modifies this, field, pieces[r]
      ensures Valid()
      ensures State() == Settled(old(State()), r)
    {
      if pieces[current].landed {
        SettleLanded(r);
      } else {
        Lift();
      }
    }

    /** The piece landed: it stays in the playfield, full rows drop, the counters move on and slot r is spawned. */
    method SettleLanded(r: int)
      requires MidPass() && 0 <= r < NPIECES && pieces[current].landed
      modifies this, field, pieces[r]
      ensures Valid()
      ensures State() == Settled(old(State()), r)
    {
      ghost var gs := State();
      ghost var p := gs.slots[gs.cur];
      ghost var g1 := Added(gs.grid, p.matrix, p.posx, p.posy, p.shape);
      AtMostFourFullRows(gs.grid, p.matrix, p.posx, p.posy, p.shape);
      ghost var want := Respawned(Counted(gs.(grid := Dropped(g1)), |FullRows(g1, 0)|), r);
      assert Settled(gs, r) == want;
      var nrows := ClearRows();
      Count(nrows);
      SpawnNext(r);
      assert State() == want;
    }

    /** playfield_add_piece followed by playfield_drop_full_rows. */
    method ClearRows() returns (nrows: int)
      requires MidPass()
      modifies field
      ensures Wired()
      ensures var gs := old(State());
        var p := gs.slots[gs.cur];
        var g1 := Added(gs.grid, p.matrix, p.posx, p.posy, p.shape);
        nrows == |FullRows(g1, 0)| && nrows <= N && State() == gs.(grid := Dropped(g1))
    {
      ghost var gs := State();
      var p := pieces[current];
      AddPiece(field, p);
      AtMostFourFullRows(gs.grid, p.Mat(), p.posx, p.posy, p.shape);
      nrows := DropFullRows(field);
      assert Slots() == gs.slots;
    }

    /** The counter updates of a landing that cleared nrows rows. */
    method Count(nrows: int)
      requires Wired() && 0 <= nrows <= N
      modifies this
      ensures Wired()
      ensures State() == Counted(old(State()), nrows)
    {
      totalRows := totalRows + nrows;
      score := score + UpdateScore(level, nrows);
      if nrows != 0 && UpdateLevel(totalRows) {
        level := level + 1;
      }
    }

    /** piece_spawn on slot r. */
    method SpawnNext(r: int)
      requires Wired() && 0 <= r < NPIECES
      modifies this, pieces[r]
      ensures Wired()
      ensures State() == Respawned(old(State()), r)
    {
      pieces[r].Spawn();
      current := r;
      OnlySlotChanged(r);
    }

    /** The piece is still moving: it is erased from the playfield again. */
    method Lift()
      requires MidPass()
      requires var p := State().slots[current]; !p.landed && !Collides(p.matrix, p.posx, p.posy, Cells(field))
      modifies field
      ensures Valid()
      ensures State() == Settled(old(State()), current)
    {
      ghost var gs := State();
      var p := pieces[current];
      AddPiece(field, p);
      RemovePiece(field, p);
      RemoveUndoesAdd(gs.grid, p.Mat(), p.posx, p.posy, p.shape);
      assert Slots() == gs.slots;
    }

    /**
     * One pass of the main loop. The events, the time on the game timer and
     * the slot that rand() would pick are inputs; quit says whether a quit
     * request was among the events, restart whether the game timer is
     * restarted.
     */
    method Tick(events: seq<Event>, elapsed: int, r: int) returns (quit: bool, restart: bool)
      requires Valid() && 0 <= r < NPIECES
      modifies this, field, PieceObjects()
      ensures Valid()
      ensures State() == Step(old(State()), events, elapsed, r)
      ensures quit == (QuitRequest in events)
      ensures restart == DescentDue(elapsed, old(level))
    {
      quit := HandleEvents(events);
      restart := TimedDescent(elapsed);
      MovePiece();
      Settle(r);
    }
  }
}
