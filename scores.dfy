/**
 * A game's two sides and their point totals: the score controls that request
 * a new total, the handler that writes the returned total into the side
 * objects, and the choice between the pushed side and the side held by the
 * game when a side is displayed.
 */
module Scores {
  import opened Records

  /** A side's value `{id, points}`; also the shape of the updateSide result,
      of the updateSide request variables and of the side stream's messages. */
  datatype SideState = SideState(id: Id, points: int)

  /** The values of a game's two sides. */
  datatype Sides = Sides(yellow: SideState, black: SideState)

  /** A side object: its identity is stable, its points are updated in place. */
  class Side {
    const id: Id
    var points: int

    constructor (id: Id, points: int)
      ensures this.id == id && this.points == points
    {
      this.id := id;
      this.points := points;
    }

    function Snap(): (r: SideState)
      reads this
      ensures r.id == id && r.points == points
    {
      SideState(id, points)
    }
  }

  /** A game object holding references to its two side objects. */
  class Game {
    const id: Id
    var name: string
    var swapped: bool
    var yellow: Side
    var black: Side

    constructor (id: Id, name: string, swapped: bool, yellow: Side, black: Side)
      ensures this.id == id && this.name == name && this.swapped == swapped
      ensures this.yellow == yellow && this.black == black
    {
      this.id, this.name, this.swapped := id, name, swapped;
      this.yellow, this.black := yellow, black;
    }

    function SidesSnap(): (r: Sides)
      reads this, yellow, black
      ensures r.yellow == yellow.Snap() && r.black == black.Snap()
    {
      Sides(yellow.Snap(), black.Snap())
    }
  }

  /** The effect of an updateSide result on a game's sides: each side whose id
      matches takes the returned points; the two checks are independent. */
  function ApplyResult(g: Sides, res: SideState): (r: Sides)
    ensures r.yellow.id == g.yellow.id && r.black.id == g.black.id
    ensures res.id != g.yellow.id && res.id != g.black.id ==> r == g
  {
    Sides(
      if res.id == g.yellow.id then SideState(g.yellow.id, res.points) else g.yellow,
      if res.id == g.black.id then SideState(g.black.id, res.points) else g.black)
  }

  /** A side takes the returned points exactly when its id matches; ids never change. */
  lemma ApplyResultSetsMatchingSides(g: Sides, res: SideState)
    ensures ApplyResult(g, res).yellow.id == g.yellow.id && ApplyResult(g, res).black.id == g.black.id
    ensures res.id == g.yellow.id ==> ApplyResult(g, res).yellow.points == res.points
    ensures res.id != g.yellow.id ==> ApplyResult(g, res).yellow == g.yellow
    ensures res.id == g.black.id ==> ApplyResult(g, res).black.points == res.points
    ensures res.id != g.black.id ==> ApplyResult(g, res).black == g.black
  {
  }

  /** The handler runs on every render while the result is held, so applying
      the same result again must change nothing. */
  lemma ApplyResultIdempotent(g: Sides, res: SideState)
    ensures ApplyResult(ApplyResult(g, res), res) == ApplyResult(g, res)
  {
  }

  /** Write the returned points into whichever side objects have the returned id.
      Nothing else in the game or its sides changes. */
  method UpdateSide(game: Game, res: SideState)
    modifies game.yellow, game.black
    ensures game.SidesSnap() == ApplyResult(old(game.SidesSnap()), res)
    ensures unchanged(game)
  {
    var yellow, black := game.yellow, game.black;
    if res.id == yellow.id {
      yellow.points := res.points;
    }
    if res.id == black.id {
      black.points := res.points;
    }
  }

  /** The `+` and `-` buttons. */
  datatype Delta = Plus | Minus

  /** The row of score controls: "Top" drives the yellow side, "Bot" the black one. */
  datatype Row = Top | Bot

  /** The updateSide request a button sends: the side's id and its points one
      higher or one lower. There is no floor and no ceiling. The points are
      read from the side the game holds, not from the side on screen (see
      `Displayed`), which may be a newer pushed value. */
  function ScoreControl(g: Sides, row: Row, d: Delta): (req: SideState)
    ensures req.id == (if row == Top then g.yellow.id else g.black.id)
    ensures d == Minus ==> req.points < (if row == Top then g.yellow.points else g.black.points)
    ensures d == Plus ==> req.points > (if row == Top then g.yellow.points else g.black.points)
  {
    var side := if row == Top then g.yellow else g.black;
    SideState(side.id, if d == Plus then side.points + 1 else side.points - 1)
  }

  /** When the server echoes a request, the chosen side moves by exactly one
      point and the other side is untouched (the two sides have distinct ids). */
  lemma ScoreControlRoundTrip(g: Sides, row: Row, d: Delta)
    requires g.yellow.id != g.black.id
    ensures var step := if d == Plus then 1 else -1;
            ApplyResult(g, ScoreControl(g, row, d)) ==
              if row == Top then Sides(SideState(g.yellow.id, g.yellow.points + step), g.black)
              else Sides(g.yellow, SideState(g.black.id, g.black.points + step))
  {
  }

  /** Pressing `-` and then `+` (each echoed by the server) restores the total. */
  lemma ScoreControlInverse(g: Sides, row: Row)
    requires g.yellow.id != g.black.id
    ensures var down := ApplyResult(g, ScoreControl(g, row, Minus));
            ApplyResult(down, ScoreControl(down, row, Plus)) == g
  {
    ScoreControlRoundTrip(g, row, Minus);
    var down := ApplyResult(g, ScoreControl(g, row, Minus));
    ScoreControlRoundTrip(down, row, Plus);
  }

  /** Totals can go below zero: `-` at zero requests -1 and the echo stores it. */
  lemma NegativeTotalsReachable(g: Sides)
    requires g.yellow.id != g.black.id && g.yellow.points == 0
    ensures ApplyResult(g, ScoreControl(g, Top, Minus)).yellow.points == -1
  {
    ScoreControlRoundTrip(g, Top, Minus);
  }

  /** The side a Side component displays: the side stream's latest message once
      loading is over and it concerns this side, otherwise the side the game holds. */
  function Displayed(loading: bool, pushed: SideState, held: SideState): (shown: SideState)
    ensures shown.id == held.id
    ensures shown == pushed || shown == held
  {
    if !loading && pushed.id == held.id then pushed else held
  }

  /** The pushed value is shown exactly when loading is over and its id matches. */
  lemma DisplayedChoosesPushed(loading: bool, pushed: SideState, held: SideState)
    requires pushed != held
    ensures Displayed(loading, pushed, held) == pushed <==> !loading && pushed.id == held.id
  {
  }

  /** The button reads the held side while the screen may show a newer pushed
      side: when another viewer has added two points, `+` requests fewer
      points than the screen shows, and once the server echoes the request the
      screen shows one point less than before the press. */
  lemma PlusBelowShown(g: Sides, pushed: SideState)
    requires pushed.id == g.yellow.id && pushed.points == g.yellow.points + 2
    ensures ScoreControl(g, Top, Plus).points < Displayed(false, pushed, g.yellow).points
    ensures var req := ScoreControl(g, Top, Plus);
            Displayed(false, req, ApplyResult(g, req).yellow).points == Displayed(false, pushed, g.yellow).points - 1
  {
  }

  /** The request computed from the side on screen: the same id, and the
      displayed points one higher or one lower. */
  function ShownScoreControl(g: Sides, row: Row, d: Delta, loading: bool, pushed: SideState): (req: SideState)
    ensures req.id == (if row == Top then g.yellow.id else g.black.id)
  {
    var shown := Displayed(loading, pushed, if row == Top then g.yellow else g.black);
    SideState(shown.id, if d == Plus then shown.points + 1 else shown.points - 1)
  }

  /** With the request computed from the side on screen, once the server echoes
      it (the handler folds it into the held side and the side stream pushes
      it), the held side and the screen both show exactly one point more or
      less than the screen showed when the button was pressed, whatever had
      been pushed before. */
  lemma ShownScoreControlEcho(g: Sides, row: Row, d: Delta, loading: bool, pushed: SideState)
    ensures var req := ShownScoreControl(g, row, d, loading, pushed);
            var before := Displayed(loading, pushed, if row == Top then g.yellow else g.black);
            var held := if row == Top then ApplyResult(g, req).yellow else ApplyResult(g, req).black;
            var step := if d == Plus then 1 else -1;
            held.points == before.points + step && Displayed(false, req, held).points == before.points + step
  {
  }

  /** Without a newer pushed value both computations send the same request. */
  lemma ShownScoreControlAgreesWhenCurrent(g: Sides, row: Row, d: Delta, loading: bool, pushed: SideState)
    requires loading || pushed == (if row == Top then g.yellow else g.black)
             || pushed.id != (if row == Top then g.yellow.id else g.black.id)
    ensures ShownScoreControl(g, row, d, loading, pushed) == ScoreControl(g, row, d)
  {
  }
}
