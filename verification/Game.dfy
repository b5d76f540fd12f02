/** The game objects, updated in place. */
module GameObjects {
  import opened GameSpec

  class Team {
    var players: seq<Player>

    constructor ()
      ensures players == []
    {
      players := [];
    }

    method AddPlayer(player: Player)
      modifies this
      ensures players == old(players) + [player]
    {
      players := players + [player];
    }

    method GetScore() returns (score: int)
      ensures score == Score(players)
    {
      score := 0;
      for i := 0 to |players|
        invariant score == Score(players[..i])
      {
        assert players[..i + 1][..i] == players[..i];
        score := score + players[i].points;
      }
      assert players[..|players|] == players;
    }

    /** What the input does to player `i` when no one before it has heard it. */
    static lemma {:induction false} InputAt(players: seq<Player>, i: nat, input: PlayerInput)
      requires i < |players|
      ensures
        var heard := players[..i] + WithInput(players[i..], input);
        heard == if players[i].id == input.id then players[i := players[i].(input := input)]
                 else players[..i + 1] + WithInput(players[i + 1..], input)
    {
      assert players[i..][1..] == players[i + 1..];
      assert players[..i + 1] == players[..i] + [players[i]];
    }

    method SetPlayerInput(input: PlayerInput)
      modifies this
      ensures players == WithInput(old(players), input)
    {
      for i := 0 to |players|
        invariant players == old(players)
        invariant WithInput(players, input) == players[..i] + WithInput(players[i..], input)
      {
        InputAt(players, i, input);
        if players[i].id == input.id {
          players := players[i := players[i].(input := input)];
          return;
        }
      }
      assert players[..|players|] + [] == players;
    }

    method GenerateView() returns (view: TeamView)
      ensures view == ViewTeam(players)
    {
      var views := [];
      for i := 0 to |players|
        invariant views == ViewPlayers(players[..i])
      {
        var p := players[i];
        assert players[..i + 1][..i] == players[..i];
        views := views + [PlayerView(p.name, p.id, p.points, p.position, p.vehicle)];
      }
      assert players[..|players|] == players;
      var score := GetScore();
      view := TeamView(score, views);
    }
  }

  class Game {
    const redTeam: Team
    const blueTeam: Team
    const globe: Globe
    const pointsToWin: int
    var pointBoxes: seq<PointBox>

    ghost function View(): World
      reads this, redTeam, blueTeam
    {
      World(redTeam.players, blueTeam.players, pointBoxes)
    }

    ghost predicate Valid() {
      redTeam != blueTeam
    }

    constructor (globe: Globe, pointsToWin: int)
      ensures Valid() && fresh(redTeam) && fresh(blueTeam)
      ensures this.globe == globe && this.pointsToWin == pointsToWin && View() == World([], [], [])
    {
      this.globe := globe;
      this.pointsToWin := pointsToWin;
      redTeam := new Team();
      blueTeam := new Team();
      pointBoxes := [];
    }

    method SetPlayerInput(input: PlayerInput)
      requires Valid()
      modifies redTeam, blueTeam
      ensures View() == InputStep(old(View()), input)
    {
      redTeam.SetPlayerInput(input);
      blueTeam.SetPlayerInput(input);
    }

    /** The random start position is an argument. */
    method AddPlayer(name: string, id: nat, vehicle: VehicleType, position: Coordinates, toRedTeam: bool)
      requires Valid()
      modifies redTeam, blueTeam
      ensures View() == JoinStep(old(View()), NewPlayer(name, id, vehicle, position), toRedTeam)
      ensures
        var player := Player(name, id, vehicle, 0, 0.0, position, PlayerInput(0, false, 0.0));
        redTeam.players == old(redTeam.players) + (if toRedTeam then [player] else [])
        && blueTeam.players == old(blueTeam.players) + (if toRedTeam then [] else [player])
    {
      var player := NewPlayer(name, id, vehicle, position);
      if toRedTeam {
        redTeam.AddPlayer(player);
      } else {
        blueTeam.AddPlayer(player);
      }
    }

    method RedTeamWon() returns (won: bool)
      ensures won == (Score(redTeam.players) >= pointsToWin)
    {
      var score := redTeam.GetScore();
      won := score >= pointsToWin;
    }

    method BlueTeamWon() returns (won: bool)
      ensures won == (Score(blueTeam.players) >= pointsToWin)
    {
      var score := blueTeam.GetScore();
      won := score >= pointsToWin;
    }

    /** The random place is an argument. */
    method GeneratePointBox(position: Coordinates)
      modifies this
      ensures pointBoxes == old(pointBoxes) + [PointBox(position, 100)]
    {
      pointBoxes := pointBoxes + [PointBox(position, POINT_BOX_VALUE)];
    }

    /** The list under examination: what has been kept, then what is still to be seen. */
    lemma {:induction false} SweepPlaces(kept: seq<PointBox>, boxes: seq<PointBox>, seen: nat)
      requires seen < |boxes|
      ensures
        var list, i := kept + boxes[seen..], |kept|;
        i < |list| && list[i] == boxes[seen]
        && list[..i] + list[i + 1..] == kept + boxes[seen + 1..]
        && list == kept + [boxes[seen]] + boxes[seen + 1..]
    {
    }

    /** Erases the boxes in reach while walking over the list. */
    method CheckForPointBox(from: Coordinates, to: Coordinates) returns (score: int)
      modifies this`pointBoxes
      ensures pointBoxes == Kept(globe, old(pointBoxes), from, to)
      ensures score == Value(Taken(globe, old(pointBoxes), from, to))
    {
      hide InReach, Kept, Taken, Value;
      score := 0;
      var i := 0;
      ghost var boxes, seen := pointBoxes, 0;
      SweepNothing(globe, from, to);
      assert boxes[..0] == [] && boxes[0..] == boxes;
      while i < |pointBoxes|
        invariant 0 <= i <= |pointBoxes| && seen <= |boxes|
        invariant i == |Kept(globe, boxes[..seen], from, to)|
        invariant pointBoxes == Kept(globe, boxes[..seen], from, to) + boxes[seen..]
        invariant score == Value(Taken(globe, boxes[..seen], from, to))
        decreases |boxes| - seen
      {
        SweepNext(globe, boxes, seen, from, to);
        SweepPlaces(Kept(globe, boxes[..seen], from, to), boxes, seen);
        if InReach(globe, pointBoxes[i], from, to) {
          score := score + pointBoxes[i].value;
          pointBoxes := pointBoxes[..i] + pointBoxes[i + 1..];
          i := i - 1;
        }
        seen := seen + 1;
        i := i + 1;
      }
      assert boxes[..seen] == boxes;
    }

    /** Moves one player of a team and gives it the boxes it passes. */
    method CalculatePlayerMovement(team: Team, i: nat, dt: real)
      requires i < |team.players|
      modifies this`pointBoxes, team
      ensures team.players == old(team.players)[i := Collected(globe, old(team.players)[i], old(pointBoxes), dt)]
      ensures pointBoxes == Remaining(globe, old(team.players)[i], old(pointBoxes), dt)
    {
      hide Kept, Taken, Value;
      var player := team.players[i];
      var oldPosition := player.position;
      var newPosition := oldPosition;
      if player.input.move {
        var distance := VehicleSpeed(player.vehicle) * dt;
        newPosition := globe.travel(oldPosition, distance, player.input.direction);
        if distance > 0.0 {
          player := player.(distanceTraveled := player.distanceTraveled + distance);
        }
      }
      var points := CheckForPointBox(oldPosition, newPosition);
      player := player.(points := player.points + points);
      player := player.(position := newPosition);
      team.players := team.players[i := player];
    }

    method MovePlayers(team: Team, dt: real)
      modifies this`pointBoxes, team
      ensures
        var s := MoveTeam(globe, old(team.players), old(pointBoxes), dt, |old(team.players)|);
        team.players == s.players && pointBoxes == s.boxes
    {
      hide Collected, Remaining;
      for i := 0 to |team.players|
        invariant |team.players| == |old(team.players)|
        invariant
          var s := MoveTeam(globe, old(team.players), old(pointBoxes), dt, i);
          team.players == s.players && pointBoxes == s.boxes
      {
        CalculatePlayerMovement(team, i, dt);
      }
    }

    method CalculateMovement(dt: real)
      requires Valid()
      modifies this, redTeam, blueTeam
      ensures View() == MoveAll(globe, old(View()), dt)
    {
      MovePlayers(redTeam, dt);
      MovePlayers(blueTeam, dt);
    }
  }

  /** The mutex-protected operations; the tick loop itself is a thread of its own. */
  class GameLogic {
    const config: Config
    const game: Game
    var lastPointBoxSpawn: int
    var serializationSeqNum: nat
    ghost var spawned: nat

    ghost predicate Valid()
      reads this
    {
      game.Valid() && game.globe == config.globe && game.pointsToWin == config.pointsToWin
    }

    ghost function View(): Core
      reads this, game, game.redTeam, game.blueTeam
    {
      Core(game.View(), lastPointBoxSpawn, serializationSeqNum, spawned)
    }

    /** `now` is the clock when the object is made. */
    constructor (config: Config, now: int)
      ensures Valid() && this.config == config && View() == Core(World([], [], []), now, 0, 0)
      ensures fresh(game) && fresh(game.redTeam) && fresh(game.blueTeam)
    {
      this.config := config;
      game := new Game(config.globe, config.pointsToWin);
      lastPointBoxSpawn := now;
      serializationSeqNum := 0;
      spawned := 0;
    }

    method AddPlayer(name: string, id: nat, vehicle: VehicleType, position: Coordinates, toRedTeam: bool)
      requires Valid()
      modifies game.redTeam, game.blueTeam
      ensures
        var p := NewPlayer(name, id, vehicle, position);
        View() == old(View()).(world := JoinStep(old(View()).world, p, toRedTeam))
    {
      game.AddPlayer(name, id, vehicle, position, toRedTeam);
    }

    method SetPlayerMovement(input: PlayerInput)
      requires Valid()
      modifies game.redTeam, game.blueTeam
      ensures View() == old(View()).(world := InputStep(old(View()).world, input))
    {
      game.SetPlayerInput(input);
    }

    /** `now` is the clock, `place` where a point box would appear. */
    method Tick(now: int, place: Coordinates)
      requires Valid()
      modifies this, game, game.redTeam, game.blueTeam
      ensures Valid() && View() == TickStep(config, old(View()), now, place)
      ensures serializationSeqNum == old(serializationSeqNum) + 1
      ensures lastPointBoxSpawn == if now - old(lastPointBoxSpawn) > config.period then now else old(lastPointBoxSpawn)
    {
      hide MoveAll;
      if now - lastPointBoxSpawn > config.period {
        game.GeneratePointBox(place);
        lastPointBoxSpawn := now;
        spawned := spawned + 1;
      }
      game.CalculateMovement(config.dt);
      serializationSeqNum := serializationSeqNum + 1;
    }

    method GameFinished() returns (finished: bool)
      requires Valid()
      ensures finished == Finished(config, game.View())
      ensures finished <==>
        Score(game.redTeam.players) >= config.pointsToWin || Score(game.blueTeam.players) >= config.pointsToWin
    {
      var blue := game.BlueTeamWon();
      var red := game.RedTeamWon();
      finished := blue || red;
    }

    method GetGameStatus() returns (status: Snapshot)
      requires Valid()
      ensures status == TakeSnapshot(config, View())
    {
      var red := game.redTeam.GenerateView();
      var blue := game.blueTeam.GenerateView();
      var redWon := game.RedTeamWon();
      var blueWon := game.BlueTeamWon();
      status := Snapshot(serializationSeqNum, red, blue, game.pointBoxes, redWon || blueWon);
    }
  }
}
