/** The shared game of the `/12` routes: one board and one seeded generator,
    and the decision each request makes, as pure functions from the session
    state (and the request) to the next state and the response.  The lock
    around the state is not modelled; each function is one critical section. */
module GameSession {
  import opened Common
  import opened SeededRng
  import opened ConnectFour

  /** The seed the generator starts from and is reset to. */
  const GameSeed: U64 := 2024

  /** `GameState`: the authoritative board and the generator. */
  datatype Session = Session(game: Board, rng: StdRng)

  /** An HTTP status code and a text body. */
  datatype Response = Response(status: nat, body: string)

  /** `RouterState::new`: an empty board and a freshly seeded generator. */
  function NewSession(): (s: Session)
    ensures IsEmpty(s.game) && Settled(s.game) && Occupied(s.game) == 0
    ensures s.rng == SeedFromU64(GameSeed)
  {
    NewIsSettled();
    EmptyHasNoOccupied(New());
    Session(New(), SeedFromU64(GameSeed))
  }

  /** GET /board: the current rendering; nothing changes. */
  function GetBoard(s: Session): (out: (Session, Response))
    ensures out.0 == s
    ensures out.1.status == StatusOk && out.1.body == Render(s.game)
    ensures ReadBoard(out.1.body) == Some(s.game)
  {
    RenderRoundTrip(s.game);
    (s, Response(StatusOk, Render(s.game)))
  }

  /** POST /reset: empties the board and reseeds the generator, which gives
      exactly the state of a fresh session. */
  function ResetSession(s: Session): (out: (Session, Response))
    ensures out.0 == NewSession()
    ensures out.1.status == StatusOk && out.1.body == Render(New())
    ensures ReadBoard(out.1.body) == Some(New())
  {
    RenderRoundTrip(New());
    var next := Session(ConnectFour.Reset(s.game), SeedFromU64(GameSeed));
    (next, Response(StatusOk, Render(next.game)))
  }

  /** The text of a `play` error, which the error wrapper sends with status 500. */
  function PlayErrorText(e: PlayError): string
  {
    match e
    case InvalidColumn => "Invalid column"
    case ColumnFull => "Column full"
  }

  /** The pre-checks that turn a move away with 503: the target column's top
      cell is taken, the board is full, or the game already has a winner. */
  predicate Blocked(g: Board, col: nat)
    requires col < N
  {
    IsColumnFull(g, col) || BoardFull(g) || Winner(g).Some?
  }

  /** POST /place/{player}/{column}, with a 1-based column. */
  function Place(s: Session, p: Player, column: nat): (out: (Session, Response))
    ensures !(1 <= column <= N) ==> out == (s, Response(StatusBadRequest, ""))
    ensures out.1.status == StatusBadRequest <==> !(1 <= column <= N)
    ensures 1 <= column <= N ==> (out.1.status == StatusUnavailable <==> Blocked(s.game, column - 1))
    ensures 1 <= column <= N && !Blocked(s.game, column - 1) ==> out.1.status == StatusOk
    ensures out.1.status != StatusOk ==> out.0 == s
    ensures out.1.status == StatusUnavailable ==> out.1.body == Render(s.game)
    ensures out.1.status in {StatusOk, StatusBadRequest, StatusUnavailable}
    ensures out.1.status == StatusOk ==>
      1 <= column <= N && out.0.rng == s.rng && out.1.body == Render(out.0.game) &&
      Play(s.game, p, column - 1) == Ok(out.0.game) && DropsInto(s.game, out.0.game, column - 1, p)
  {
    if !(1 <= column <= N) then
      (s, Response(StatusBadRequest, ""))
    else if Blocked(s.game, column - 1) then
      (s, Response(StatusUnavailable, Render(s.game)))
    else
      OpenTopAcceptsPlay(s.game, p, column - 1);
      match Play(s.game, p, column - 1)
      case Err(e) => (s, Response(StatusInternalError, PlayErrorText(e)))
      case Ok(g) =>
        var next := Session(g, s.rng);
        (next, Response(StatusOk, Render(g)))
  }

  /** GET /random-board: draws a full board from the generator and renders
      it; the stored board is left alone. */
  function RandomBoard(bits: BitStream, s: Session): (out: (Session, Response))
    ensures out.0.game == s.game
    ensures out.0.rng == StdRng(s.rng.seed, s.rng.drawn + N * N)
    ensures out.1.status == StatusOk
    ensures out.1.body == Render(Random(bits, s.rng).0)
    ensures ReadBoard(out.1.body) == Some(Random(bits, s.rng).0)
    ensures ReadBoard(out.1.body).Some? && BoardFull(ReadBoard(out.1.body).value)
  {
    var drawn := Random(bits, s.rng);
    RenderRoundTrip(drawn.0);
    (Session(s.game, drawn.1), Response(StatusOk, Render(drawn.0)))
  }

  /** Every request keeps the gravity invariant on the stored board. */
  lemma RequestsKeepSettled(bits: BitStream, s: Session, p: Player, column: nat)
    requires Settled(s.game)
    ensures Settled(GetBoard(s).0.game)
    ensures Settled(ResetSession(s).0.game)
    ensures Settled(Place(s, p, column).0.game)
    ensures Settled(RandomBoard(bits, s).0.game)
  {
    PlaceKeepsSettled(s, p, column);
  }

  lemma PlaceKeepsSettled(s: Session, p: Player, column: nat)
    requires Settled(s.game)
    ensures Settled(Place(s, p, column).0.game)
  {
    if Place(s, p, column).1.status == StatusOk {
      PlayPreservesSettled(s.game, p, column - 1);
    }
  }

  /** An accepted move occupies exactly one more cell and changes no
      occupied cell. */
  lemma AcceptedPlaceAddsOneCell(s: Session, p: Player, column: nat)
    ensures Place(s, p, column).1.status == StatusOk ==>
      Occupied(Place(s, p, column).0.game) == Occupied(s.game) + 1
      && Extends(s.game, Place(s, p, column).0.game)
  {
    var out := Place(s, p, column);
    if out.1.status == StatusOk {
      PlayAddsOne(s.game, p, column - 1);
      var row :| LowestEmpty(s.game, column - 1, row) && out.0.game == SetCell(s.game, row, column - 1, p);
    }
  }

  /** After a reset, the next random board is the same whatever happened
      before, and the same as on a freshly started server; in particular two
      resets in a row lead to identical random boards. */
  lemma ResetMakesRandomReproducible(bits: BitStream, s1: Session, s2: Session)
    ensures RandomBoard(bits, ResetSession(s1).0).1 == RandomBoard(bits, NewSession()).1
    ensures RandomBoard(bits, ResetSession(ResetSession(s1).0).0).1 == RandomBoard(bits, ResetSession(s2).0).1
  {
  }

  /** A column holding N markers turns the next move into it away with 503
      and the session is unchanged (the fifth drop into a column). */
  lemma FullColumnPlaceRejected(s: Session, p: Player, col: nat)
    requires col < N && Height(s.game, col) == N
    ensures Place(s, p, col + 1) == (s, Response(StatusUnavailable, Render(s.game)))
  {
    CountRowAllIff(Column(s.game, col));
    assert s.game[0][col] == Column(s.game, col)[0];
  }
}
