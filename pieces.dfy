/**
 * The falling piece: its state, the input events that change its velocity
 * or turn it, and its movement against the playfield.
 *
 * PieceState and the functions Handle, Moved, Descended and Spawned give
 * the meaning of each step as a value; class Piece is the mutable record
 * the game works on, and each of its methods is proved to produce the state
 * the matching function describes.
 */
module Pieces {
  import opened Shapes
  import opened Board

  /** PIECE_VELOCITY: one cell per step. */
  const PIECE_VELOCITY := 1

  /** Where piece_spawn puts a piece: column 6 of the top row. */
  const SPAWN_X := 6
  const SPAWN_Y := 0

  /** A snapshot of a Piece record. */
  datatype PieceState = PieceState(
    shape: int,      // shape id 1..7
    posx: int,       // column of the matrix's top-left corner
    posy: int,       // row of the matrix's top-left corner
    velx: int,       // columns moved per step
    vely: int,       // rows moved per step
    matrix: Matrix,  // 4x4 occupancy
    landed: bool)    // a downward step was rejected

  /**
   * What the game keeps true of every piece: a known shape id, a 0/1
   * matrix, a row that is never above the playfield (the collision scan
   * reads gPlayfield[i + posy] unchecked) and a vertical velocity that never
   * points up (which is what keeps the row non-negative).
   */
  ghost predicate ValidPiece(s: PieceState) {
    1 <= s.shape <= NPIECES && IsMatrix(s.matrix) && s.posy >= 0 && s.vely >= 0
  }

  /** The keys the game reacts to; every other key is Unbound. */
  datatype Key = Down | Left | Right | Q | W | Unbound

  /**
   * The input events of one frame: a key pressed or released (repeat is set
   * for auto-repeat events, which are ignored), a request to quit, or any
   * other event.
   */
  datatype Event = Press(key: Key, repeat: bool) | Release(key: Key, repeat: bool) | QuitRequest | Other

  /** The rotation keys: q turns anticlockwise, w turns clockwise. */
  predicate IsRotation(e: Event) {
    e.Press? && !e.repeat && (e.key == Q || e.key == W)
  }

  /** A quarter turn that is kept only when the turned piece does not collide; otherwise the opposite turn is applied. */
  ghost function TryTurn(s: PieceState, clockwise: bool, g: Grid): (r: PieceState)
    requires ValidPiece(s) && IsGrid(g)
    ensures ValidPiece(r)
    ensures r == s.(matrix := r.matrix)
    ensures var turned := if clockwise then Clockwise(s.matrix) else Anticlockwise(s.matrix);
      r.matrix == if Collides(turned, s.posx, s.posy, g) then s.matrix else turned
  {
    if clockwise then
      var m := Clockwise(s.matrix);
      if Collides(m, s.posx, s.posy, g) then
        AnticlockwiseUndoesClockwise(s.matrix);
        s.(matrix := Anticlockwise(m))
      else s.(matrix := m)
    else
      var m := Anticlockwise(s.matrix);
      if Collides(m, s.posx, s.posy, g) then
        ClockwiseUndoesAnticlockwise(s.matrix);
        s.(matrix := Clockwise(m))
      else s.(matrix := m)
  }

  /**
   * piece_handle_event: a key press or release adds to or subtracts from
   * the velocity, a rotation key turns the piece, and nothing else changes.
   */
  ghost function Handle(s: PieceState, e: Event, g: Grid): (r: PieceState)
    requires ValidPiece(s) && IsGrid(g)
    ensures ValidPiece(r)
    ensures r.shape == s.shape && r.posx == s.posx && r.posy == s.posy && r.landed == s.landed
    ensures !IsRotation(e) ==> r.matrix == s.matrix
    ensures IsRotation(e) ==> r.velx == s.velx && r.vely == s.vely
    ensures e == Press(W, false) ==>
      r.matrix == if Collides(Clockwise(s.matrix), s.posx, s.posy, g) then s.matrix else Clockwise(s.matrix)
    ensures e == Press(Q, false) ==>
      r.matrix == if Collides(Anticlockwise(s.matrix), s.posx, s.posy, g) then s.matrix else Anticlockwise(s.matrix)
    ensures r.velx - s.velx in {-1, 0, 1} && r.vely - s.vely in {-1, 0, 1}
  {
    match e
    case Press(key, repeat) =>
      if repeat then s
      else
        (match key
         case Down => s.(vely := s.vely + PIECE_VELOCITY)
         case Left => s.(velx := s.velx - PIECE_VELOCITY)
         case Right => s.(velx := s.velx + PIECE_VELOCITY)
         case Q => TryTurn(s, false, g)
         case W => TryTurn(s, true, g)
         case Unbound => s)
    case Release(key, repeat) =>
      if repeat then s
      else
        (match key
         case Down =>
           var v := s.vely - PIECE_VELOCITY;
           s.(vely := if v < 0 then 0 else v)
         case Left => s.(velx := s.velx + PIECE_VELOCITY)
         case Right => s.(velx := s.velx - PIECE_VELOCITY)
         case _ => s)
    case QuitRequest => s
    case Other => s
  }

  /** Releasing a key undoes pressing it, as far as velocity goes. */
  lemma ReleaseUndoesPress(s: PieceState, k: Key, g: Grid)
    requires ValidPiece(s) && IsGrid(g) && (k == Down || k == Left || k == Right)
    ensures Handle(Handle(s, Press(k, false), g), Release(k, false), g) == s
  {
  }

  /** Holding left and right together leaves no horizontal velocity. */
  lemma LeftAndRightCancel(s: PieceState, g: Grid)
    requires ValidPiece(s) && IsGrid(g)
    ensures Handle(Handle(s, Press(Left, false), g), Press(Right, false), g) == s
    ensures Handle(Handle(s, Press(Right, false), g), Press(Left, false), g) == s
  {
  }

  /** The events of one frame, handled in order. */
  ghost function HandleAll(s: PieceState, es: seq<Event>, g: Grid): (r: PieceState)
    requires ValidPiece(s) && IsGrid(g)
    ensures ValidPiece(r)
    ensures r.shape == s.shape && r.posx == s.posx && r.posy == s.posy && r.landed == s.landed
    decreases |es|
  {
    if es == [] then s else Handle(HandleAll(s, es[..|es| - 1], g), es[|es| - 1], g)
  }

  /**
   * The first half of piece_move: the horizontal step is taken unless the
   * piece would then collide.
   */
  ghost function StepAcross(s: PieceState, g: Grid): (r: PieceState)
    requires ValidPiece(s) && IsGrid(g)
    ensures ValidPiece(r)
  {
    if Collides(s.matrix, s.posx + s.velx, s.posy, g) then s else s.(posx := s.posx + s.velx)
  }

  /**
   * The second half of piece_move: the vertical step is taken unless the
   * piece would then collide, in which case it stays and is marked landed.
   */
  ghost function StepDown(s: PieceState, g: Grid): (r: PieceState)
    requires ValidPiece(s) && IsGrid(g)
    ensures ValidPiece(r)
  {
    if Collides(s.matrix, s.posx, s.posy + s.vely, g) then s.(landed := true) else s.(posy := s.posy + s.vely)
  }

  /**
   * piece_move: the horizontal step is taken unless it collides; then the
   * vertical step is taken unless it collides, and a rejected vertical step
   * marks the piece landed.
   */
  ghost function Moved(s: PieceState, g: Grid): (r: PieceState)
    requires ValidPiece(s) && IsGrid(g)
    ensures ValidPiece(r)
    ensures r == s.(posx := r.posx, posy := r.posy, landed := r.landed)
    ensures r.posx == if Collides(s.matrix, s.posx + s.velx, s.posy, g) then s.posx else s.posx + s.velx
    ensures r.landed == (s.landed || Collides(s.matrix, r.posx, s.posy + s.vely, g))
    ensures r.posy == if Collides(s.matrix, r.posx, s.posy + s.vely, g) then s.posy else s.posy + s.vely
    ensures !r.landed ==> !Collides(r.matrix, r.posx, r.posy, g)
    ensures !Collides(s.matrix, s.posx, s.posy, g) ==> !Collides(r.matrix, r.posx, r.posy, g)
  {
    StepDown(StepAcross(s, g), g)
  }

  /** With no velocity, a piece that does not collide stays where it is. */
  lemma MovedAtRest(s: PieceState, g: Grid)
    requires ValidPiece(s) && IsGrid(g) && s.velx == 0 && s.vely == 0
    requires !Collides(s.matrix, s.posx, s.posy, g)
    ensures Moved(s, g) == s
  {
  }

  /**
   * The timed descent in the main loop: one extra downward step of one
   * row, taken with the vertical velocity raised by one and then lowered
   * back.
   */
  ghost function Descended(s: PieceState, g: Grid): (r: PieceState)
    requires ValidPiece(s) && IsGrid(g)
    ensures ValidPiece(r)
    ensures r == s.(posx := r.posx, posy := r.posy, landed := r.landed)
    ensures r.posy == s.posy || r.posy == s.posy + s.vely + 1
  {
    var q := Moved(s.(vely := s.vely + PIECE_VELOCITY), g);
    q.(vely := q.vely - PIECE_VELOCITY)
  }

  /** piece_spawn, applied to the chosen slot: only position, velocity and the landed flag are reset. */
  function Spawned(s: PieceState): (r: PieceState)
    ensures ValidPiece(s) ==> ValidPiece(r)
    ensures r.shape == s.shape && r.matrix == s.matrix
    ensures r.posx == SPAWN_X && r.posy == SPAWN_Y && r.velx == 0 && r.vely == 0 && !r.landed
  {
    s.(posx := SPAWN_X, posy := SPAWN_Y, velx := 0, vely := 0, landed := false)
  }

  /** The Piece record of tetris.c. */
  class Piece {
    var shape: int
    var posx: int
    var posy: int
    var velx: int
    var vely: int
    /** The 4x4 matrix is embedded in the record: the array itself never changes, only its cells. */
    const matrix: array2<int>
    var landed: bool

    ghost function Mat(): Matrix
      reads matrix
    {
      Cells(matrix)
    }

    ghost function State(): PieceState
      reads this, matrix
    {
      PieceState(shape, posx, posy, velx, vely, Cells(matrix), landed)
    }

    ghost predicate Valid()
      reads this, matrix
    {
      matrix.Length0 == N && matrix.Length1 == N && ValidPiece(State())
    }

    /** A catalog entry: the given shape and matrix, at the origin, at rest. */
    constructor (id: int, m: Matrix)
      requires 1 <= id <= NPIECES && IsMatrix(m)
      ensures Valid() && fresh(matrix)
      ensures State() == PieceState(id, 0, 0, 0, 0, m, false)
    {
      shape, posx, posy, velx, vely, landed := id, 0, 0, 0, 0, false;
      var a := new int[N, N];
      var i := 0;
      while i < N
        invariant 0 <= i <= N
        invariant forall r, c :: 0 <= r < i && 0 <= c < N ==> a[r, c] == m[r][c]
      {
        var j := 0;
        while j < N
          invariant 0 <= j <= N
          invariant forall r, c :: 0 <= r < i && 0 <= c < N ==> a[r, c] == m[r][c]
          invariant forall c :: 0 <= c < j ==> a[i, c] == m[i][c]
        {
          a[i, j] := m[i][j];
          j := j + 1;
        }
        i := i + 1;
      }
      matrix := a;
      new;
      MatrixExt(Cells(matrix), m);
    }

    /** piece_collided: scans the matrix row by row and stops at the first blocked cell. */
    method Collided(field: array2<int>) returns (hit: bool)
      requires Valid() && field.Length0 == HEIGHT && field.Length1 == WIDTH
      ensures hit == Collides(Mat(), posx, posy, Cells(field))
    {
      var i := 0;
      while i < N
        invariant 0 <= i <= N
        invariant forall r, c :: 0 <= r < i && 0 <= c < N ==>
          !(Mat()[r][c] == 1 && Blocked(Cells(field), r + posy, c + posx))
      {
        var j := 0;
        while j < N
          invariant 0 <= j <= N
          invariant forall r, c :: 0 <= r < i && 0 <= c < N ==>
            !(Mat()[r][c] == 1 && Blocked(Cells(field), r + posy, c + posx))
          invariant forall c :: 0 <= c < j ==> !(Mat()[i][c] == 1 && Blocked(Cells(field), i + posy, c + posx))
        {
          if matrix[i, j] == 1 &&
             (j + posx < 0 || j + posx >= WIDTH || i + posy >= HEIGHT || field[i + posy, j + posx] != 0)
          {
            assert Mat()[i][j] == 1 && Blocked(Cells(field), i + posy, j + posx);
            return true;
          }
          j := j + 1;
        }
        i := i + 1;
      }
      return false;
    }

    /** The second half of both rotations: copy the temporary matrix back into the piece. */
    method Store(t: array2<int>)
      requires t.Length0 == N && t.Length1 == N && matrix.Length0 == N && matrix.Length1 == N && t != matrix
      modifies matrix
      ensures Mat() == Cells(t)
    {
      var i := 0;
      while i < N
        invariant 0 <= i <= N
        invariant forall r, c :: 0 <= r < i && 0 <= c < N ==> matrix[r, c] == t[r, c]
      {
        var j := 0;
        while j < N
          invariant 0 <= j <= N
          invariant forall r, c :: 0 <= r < i && 0 <= c < N ==> matrix[r, c] == t[r, c]
          invariant forall c :: 0 <= c < j ==> matrix[i, c] == t[i, c]
        {
          matrix[i, j] := t[i, j];
          j := j + 1;
        }
        i := i + 1;
      }
      MatrixExt(Mat(), Cells(t));
    }

    /** piece_rotate_clock: turns the matrix clockwise and reports whether the turned piece collides. */
    method RotateClock(field: array2<int>) returns (collided: bool)
      requires Valid() && field.Length0 == HEIGHT && field.Length1 == WIDTH
      modifies matrix
      ensures Valid()
      ensures Mat() == Clockwise(old(Mat()))
      ensures collided == Collides(Mat(), posx, posy, Cells(field))
    {
      ghost var m := Mat();
      var t := new int[N, N];
      var i := 0;
      while i < N
        invariant 0 <= i <= N
        invariant forall r, c :: 0 <= r < N && N - i <= c < N ==> t[r, c] == m[N - 1 - c][r]
        modifies t
      {
        var j := 0;
        while j < N
          invariant 0 <= j <= N
          invariant forall r, c :: 0 <= r < N && N - i <= c < N ==> t[r, c] == m[N - 1 - c][r]
          invariant forall r :: 0 <= r < j ==> t[r, N - 1 - i] == m[i][r]
          modifies t
        {
          t[j, N - 1 - i] := matrix[i, j];
          j := j + 1;
        }
        i := i + 1;
      }
      MatrixExt(Cells(t), Clockwise(m));
      Store(t);
      collided := Collided(field);
    }

    /** piece_rotate_anticlock: turns the matrix anticlockwise and reports whether the turned piece collides. */
    method RotateAnticlock(field: array2<int>) returns (collided: bool)
      requires Valid() && field.Length0 == HEIGHT && field.Length1 == WIDTH
      modifies matrix
      ensures Valid()
      ensures Mat() == Anticlockwise(old(Mat()))
      ensures collided == Collides(Mat(), posx, posy, Cells(field))
    {
      ghost var m := Mat();
      var t := new int[N, N];
      var i := 0;
      while i < N
        invariant 0 <= i <= N
        invariant forall r, c :: 0 <= r < N && 0 <= c < i ==> t[r, c] == m[c][N - 1 - r]
        modifies t
      {
        var j := 0;
        while j < N
          invariant 0 <= j <= N
          invariant forall r, c :: 0 <= r < N && 0 <= c < i ==> t[r, c] == m[c][N - 1 - r]
          invariant forall c :: 0 <= c < j ==> t[N - 1 - c, i] == m[i][c]
          modifies t
        {
          t[N - 1 - j, i] := matrix[i, j];
          j := j + 1;
        }
        i := i + 1;
      }
      MatrixExt(Cells(t), Anticlockwise(m));
      Store(t);
      collided := Collided(field);
    }

    /** piece_handle_event. */
    method HandleEvent(e: Event, field: array2<int>)
      requires Valid() && field.Length0 == HEIGHT && field.Length1 == WIDTH
      modifies this, matrix
      ensures Valid()
      ensures State() == Handle(old(State()), e, Cells(field))
    {
      match e {
        case Press(key, repeat) =>
          if !repeat {
            match key {
              case Down => vely := vely + PIECE_VELOCITY;
              case Left => velx := velx - PIECE_VELOCITY;
              case Right => velx := velx + PIECE_VELOCITY;
              case Q =>
                var collided := RotateAnticlock(field);
                if collided {
                  collided := RotateClock(field);
                }
              case W =>
                var collided := RotateClock(field);
                if collided {
                  collided := RotateAnticlock(field);
                }
              case Unbound =>
            }
          }
        case Release(key, repeat) =>
          if !repeat {
            match key {
              case Down =>
                vely := vely - PIECE_VELOCITY;
                if vely < 0 {
                  vely := 0;
                }
              case Left => velx := velx + PIECE_VELOCITY;
              case Right => velx := velx - PIECE_VELOCITY;
              case _ =>
            }
          }
        case QuitRequest =>
        case Other =>
      }
    }

    /** piece_spawn, applied to the chosen slot. */
    method Spawn()
      requires Valid()
      modifies this
      ensures Valid()
      ensures State() == Spawned(old(State()))
    {
      posx := SPAWN_X;
      posy := SPAWN_Y;
      velx := 0;
      vely := 0;
      landed := false;
    }

    /** The horizontal half of piece_move. */
    method MoveAcross(field: array2<int>)
      requires Valid() && field.Length0 == HEIGHT && field.Length1 == WIDTH
      modifies this
      ensures Valid()
      ensures State() == StepAcross(old(State()), Cells(field))
    {
      ghost var s, g := State(), Cells(field);
      posx := posx + velx;
      var hit := Collided(field);
      assert Mat() == s.matrix && Cells(field) == g && posy == s.posy;
      if hit {
        posx := posx - velx;
      }
    }

    /** The vertical half of piece_move. */
    method MoveDown(field: array2<int>)
      requires Valid() && field.Length0 == HEIGHT && field.Length1 == WIDTH
      modifies this
      ensures Valid()
      ensures State() == StepDown(old(State()), Cells(field))
    {
      ghost var s, g := State(), Cells(field);
      posy := posy + vely;
      var hit := Collided(field);
      assert Mat() == s.matrix && Cells(field) == g && posx == s.posx;
      if hit {
        posy := posy - vely;
        landed := true;
      }
    }

    /** piece_move. */
    method Move(field: array2<int>)
      requires Valid() && field.Length0 == HEIGHT && field.Length1 == WIDTH
      modifies this
      ensures Valid()
      ensures State() == Moved(old(State()), Cells(field))
    {
      MoveAcross(field);
      MoveDown(field);
    }

    /** The timed descent of the main loop: piece_move with the vertical velocity raised by one for the call. */
    method Descend(field: array2<int>)
      requires Valid() && field.Length0 == HEIGHT && field.Length1 == WIDTH
      modifies this
      ensures Valid()
      ensures State() == Descended(old(State()), Cells(field))
    {
      vely := vely + PIECE_VELOCITY;
      Move(field);
      vely := vely - PIECE_VELOCITY;
    }
  }
}
