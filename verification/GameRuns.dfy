/** What becomes of single players, the clock and the rosters, told in the terms of the
    rules: over one tick, and over whole runs. */
module GameRuns {
  import opened Geometry
  import opened GameSpec
  import opened GameLaws

  // ----- one tick

  /** What a tick makes of the player `p`, its points apart: a player that does not move stays,
      any other travels on its vehicle in its direction. */
  ghost predicate Travels(g: Globe, p: Player, q: Player, dt: real) {
    && q.name == p.name && q.id == p.id && q.vehicle == p.vehicle && q.input == p.input
    && if !p.input.move then q.position == p.position && q.distanceTraveled == p.distanceTraveled
       else
         var speed := if p.vehicle.PEDESTRIAN? then 5.0 else if p.vehicle.CYCLIST? then 9.0 else 13.88;
         q.position == g.travel(p.position, speed * dt, p.input.direction)
         && q.distanceTraveled == p.distanceTraveled + (if speed * dt > 0.0 then speed * dt else 0.0)
  }

  lemma {:induction false} CollectedTravels(g: Globe, p: Player, boxes: seq<PointBox>, dt: real)
    ensures Travels(g, p, Collected(g, p, boxes, dt), dt)
  {
    hide Taken, Value;
  }

  /** Every player of both teams travels so in every tick. */
  lemma {:induction false} PlayersAfterTick(g: Globe, w: World, dt: real)
    ensures
      var v := MoveAll(g, w, dt);
      && |v.red| == |w.red| && |v.blue| == |w.blue|
      && (forall j :: 0 <= j < |w.red| ==> Travels(g, w.red[j], v.red[j], dt))
      && (forall j :: 0 <= j < |w.blue| ==> Travels(g, w.blue[j], v.blue[j], dt))
  {
    hide Travels, MoveTeam, Collected;
    TeamTravels(g, w.red, w.boxes, dt);
    TeamTravels(g, w.blue, LeftByRed(g, w, dt), dt);
  }

  lemma {:induction false} TeamTravels(g: Globe, players: seq<Player>, boxes: seq<PointBox>, dt: real)
    ensures
      var s := MoveTeam(g, players, boxes, dt, |players|);
      |s.players| == |players| && forall j :: 0 <= j < |players| ==> Travels(g, players[j], s.players[j], dt)
  {
    hide Travels, MoveTeam, Collected;
    forall j | 0 <= j < |players|
      ensures Travels(g, players[j], MoveTeam(g, players, boxes, dt, |players|).players[j], dt)
    {
      PlayerShare(g, players, boxes, dt, j, |players|);
      CollectedTravels(g, players[j], MoveTeam(g, players, boxes, dt, j).boxes, dt);
    }
  }

  /** `t` of the way through the move the player is less than five metres from the box, by the
      formula of the original: a circumference of 40075 km along the parallel of each point, and
      111320 m for a degree of latitude. */
  ghost predicate NearAt(g: Globe, b: Coordinates, from: Coordinates, to: Coordinates, t: real) {
    var x := (c: Coordinates) => 40075000.0 * g.cosine(c.latitude) / 360.0 * c.longitude;
    var y := (c: Coordinates) => c.latitude * 111320.0;
    var dx := x(b) - (x(from) + t * (x(to) - x(from)));
    var dy := y(b) - (y(from) + t * (y(to) - y(from)));
    dx * dx + dy * dy < 25.0
  }

  lemma {:induction false} ReachInMetres(g: Globe, b: PointBox, from: Coordinates, to: Coordinates)
    ensures InReach(g, b, from, to) <==> exists t :: 0.0 <= t <= 1.0 && NearAt(g, b.position, from, to, t)
  {
    ReachMeansNear(g, b, from, to);
    forall t: real ensures NearAt(g, b.position, from, to, t) <==> DistanceAt(g, b, from, to, t) < 25.0 {
      NearIsDistance(g, b, from, to, t);
    }
    hide InReach, NearAt, DistanceAt;
    if PassesNear(g, b, from, to) {
      var t :| 0.0 <= t <= 1.0 && DistanceAt(g, b, from, to, t) < 25.0;
      assert NearAt(g, b.position, from, to, t);
    }
    if t :| 0.0 <= t <= 1.0 && NearAt(g, b.position, from, to, t) {
      assert DistanceAt(g, b, from, to, t) < 25.0;
    }
  }

  lemma {:induction false} NearIsDistance(g: Globe, b: PointBox, from: Coordinates, to: Coordinates, t: real)
    ensures NearAt(g, b.position, from, to, t) <==> DistanceAt(g, b, from, to, t) < 25.0
  {
  }

  // ----- the teams in a run

  function Members(w: World, red: bool): seq<Player> {
    if red then w.red else w.blue
  }

  /** Who a player is. */
  datatype Identity = Identity(name: string, id: nat, vehicle: VehicleType)

  function Roster(players: seq<Player>): (r: seq<Identity>)
    ensures |r| == |players|
    ensures forall j :: 0 <= j < |players| ==> r[j] == Identity(players[j].name, players[j].id, players[j].vehicle)
  {
    seq(|players|, j requires 0 <= j < |players| => Identity(players[j].name, players[j].id, players[j].vehicle))
  }

  /** Those who joined a team in a run of events, in order. */
  function Joined(es: seq<Event>, red: bool): seq<Identity> {
    if es == [] then []
    else
      (if es[0].Join? && es[0].toRed == red then [Identity(es[0].name, es[0].id, es[0].vehicle)] else [])
      + Joined(es[1..], red)
  }

  /** What one event does to one team: a join appends a player without points or input, an input
      reaches the first player with its id, a tick moves every player. */
  ghost predicate TeamChanges(c: Config, s: State, e: Event, red: bool, before: seq<Player>, after: seq<Player>) {
    match e
    case Join(name, id, vehicle, position, toRed) =>
      after == before
        + (if toRed == red then [Player(name, id, vehicle, 0, 0.0, position, PlayerInput(0, false, 0.0))] else [])
    case Input(input) =>
      |after| == |before|
      && forall j :: 0 <= j < |before| ==>
           after[j] == if before[j].id == input.id && NoneBefore(before, input.id, j)
                       then before[j].(input := input) else before[j]
    case Tick(_, _) =>
      if s.thread.Ticking?
      then |after| == |before| && forall j :: 0 <= j < |before| ==> Travels(c.globe, before[j], after[j], c.dt)
      else after == before
    case Check => after == before
    case Terminate => after == before
  }

  /** Every event does exactly that to both teams. */
  lemma {:induction false} EventOnTeams(c: Config, s: State, e: Event, red: bool)
    ensures TeamChanges(c, s, e, red, Members(s.core.world, red), Members(Next(c, s, e).core.world, red))
  {
    hide Travels, NoneBefore, MoveAll, WithInput, Finished;
    var w := s.core.world;
    match e
    case Join(name, id, vehicle, position, toRed) =>
      assert Members(w, red) + [] == Members(w, red);
    case Input(input) =>
      forall j | 0 <= j < |Members(w, red)|
        ensures WithInput(Members(w, red), input)[j]
          == if Members(w, red)[j].id == input.id && NoneBefore(Members(w, red), input.id, j)
             then Members(w, red)[j].(input := input) else Members(w, red)[j]
      {
        FirstWithIdHears(Members(w, red), input, j);
      }
    case Tick(now, place) =>
      PlayersAfterTick(c.globe, w.(boxes := BoxesAtTick(c, s.core, now, place)), c.dt);
    case Check =>
    case Terminate =>
  }

  /** No event but a tick touches the boxes. */
  lemma {:induction false} BoxesOnlyByTicks(c: Config, s: State, e: Event)
    ensures !e.Tick? ==> Next(c, s, e).core.world.boxes == s.core.world.boxes
  {
    hide TickStep, WithInput, NewPlayer, Finished;
  }

  lemma {:induction false} RosterStep(c: Config, s: State, e: Event, red: bool)
    ensures Roster(Members(Next(c, s, e).core.world, red)) == Roster(Members(s.core.world, red)) + Joined([e], red)
  {
    EventOnTeams(c, s, e, red);
    hide NoneBefore, Next, Members;
    assert [e][1..] == [];
    var before := Members(s.core.world, red);
    assert Roster(before) + [] == Roster(before);
  }

  lemma {:induction false} JoinedCons(es: seq<Event>, red: bool)
    requires es != []
    ensures Joined(es, red) == Joined([es[0]], red) + Joined(es[1..], red)
  {
    var first := [es[0]];
    assert first[1..] == [];
    assert Joined(first[1..], red) == [];
  }

  /** Over every run a team consists of those it had, and those who joined it, in order. */
  lemma {:induction false} RosterIsJoins(c: Config, s: State, es: seq<Event>, red: bool)
    ensures Roster(Members(Run(c, s, es).core.world, red)) == Roster(Members(s.core.world, red)) + Joined(es, red)
    decreases |es|
  {
    hide Next, Roster, Members;
    if es == [] {
      assert Roster(Members(s.core.world, red)) + [] == Roster(Members(s.core.world, red));
    } else {
      var t := Next(c, s, es[0]);
      RosterStep(c, s, es[0], red);
      JoinedCons(es, red);
      RosterIsJoins(c, t, es[1..], red);
    }
  }

  /** The event tells the player to move. */
  predicate Orders(e: Event, id: nat) {
    e.Input? && e.input.id == id && e.input.move
  }

  /** The same player, standing where it stood. */
  ghost predicate Stands(p: Player, q: Player) {
    q.id == p.id && q.position == p.position && q.distanceTraveled == p.distanceTraveled && !q.input.move
  }

  lemma {:induction false} StepStands(c: Config, s: State, e: Event, red: bool, j: nat)
    requires j < |Members(s.core.world, red)|
    requires !Members(s.core.world, red)[j].input.move && !Orders(e, Members(s.core.world, red)[j].id)
    ensures |Members(Next(c, s, e).core.world, red)| > j
    ensures Stands(Members(s.core.world, red)[j], Members(Next(c, s, e).core.world, red)[j])
  {
    EventOnTeams(c, s, e, red);
    hide NoneBefore, Next, Members;
  }

  /** Over every run a player that never hears an order to move keeps its place. */
  lemma {:induction false} StillPlayerStays(c: Config, s: State, es: seq<Event>, red: bool, j: nat)
    requires j < |Members(s.core.world, red)| && !Members(s.core.world, red)[j].input.move
    requires forall i :: 0 <= i < |es| ==> !Orders(es[i], Members(s.core.world, red)[j].id)
    ensures |Members(Run(c, s, es).core.world, red)| > j
    ensures Stands(Members(s.core.world, red)[j], Members(Run(c, s, es).core.world, red)[j])
    decreases |es|
  {
    hide Next, Members;
    if es != [] {
      StepStands(c, s, es[0], red, j);
      StillPlayerStays(c, Next(c, s, es[0]), es[1..], red, j);
    }
  }

  // ----- the clock

  /** The ticks that took place in a run. */
  function Ticks(c: Config, s: State, es: seq<Event>): nat
    decreases |es|, c, s
  {
    if es == [] then 0
    else (if es[0].Tick? && s.thread.Ticking? then 1 else 0) + Ticks(c, Next(c, s, es[0]), es[1..])
  }

  /** The sequence number counts them. */
  lemma {:induction false} SequenceCountsTicks(c: Config, s: State, es: seq<Event>)
    ensures Run(c, s, es).core.seqNum == s.core.seqNum + Ticks(c, s, es)
    decreases |es|
  {
    if es != [] {
      StepCounts(c, s, es[0]);
      hide Next;
      SequenceCountsTicks(c, Next(c, s, es[0]), es[1..]);
    }
  }

  lemma {:induction false} StepCounts(c: Config, s: State, e: Event)
    ensures Next(c, s, e).core.seqNum == s.core.seqNum + (if e.Tick? && s.thread.Ticking? then 1 else 0)
  {
    hide MoveAll, WithInput, NewPlayer, Finished;
  }

  /** The clock at the ticks that brought a box. */
  function SpawnTimes(c: Config, s: State, es: seq<Event>): seq<int>
    decreases |es|, c, s
  {
    if es == [] then []
    else
      var t := Next(c, s, es[0]);
      (if es[0].Tick? && t.core.spawned != s.core.spawned then [es[0].now] else []) + SpawnTimes(c, t, es[1..])
  }

  function LastOf(times: seq<int>, otherwise: int): int {
    if times == [] then otherwise else times[|times| - 1]
  }

  /** Each is more than a period later than the one before. */
  ghost predicate Spaced(times: seq<int>, start: int, period: int) {
    forall k :: 0 <= k < |times| ==> times[k] - Before(times, start, k) > period
  }

  function Before(times: seq<int>, start: int, k: nat): int
    requires k <= |times|
  {
    if k == 0 then start else times[k - 1]
  }

  lemma {:induction false} StepSpawns(c: Config, s: State, e: Event)
    ensures
      var t := Next(c, s, e);
      if e.Tick? && s.thread.Ticking? && e.now - s.core.lastSpawn > c.period
      then t.core.lastSpawn == e.now && t.core.spawned == s.core.spawned + 1
      else t.core.lastSpawn == s.core.lastSpawn && t.core.spawned == s.core.spawned
  {
    hide MoveAll, WithInput, NewPlayer, Finished;
  }

  lemma {:induction false} SpacedNothing(start: int, period: int)
    ensures Spaced([], start, period) && LastOf([], start) == start
  {
  }

  lemma {:induction false} SpacedCons(first: int, later: seq<int>, start: int, period: int)
    ensures LastOf([first] + later, start) == LastOf(later, first)
    ensures first - start > period && Spaced(later, first, period) ==> Spaced([first] + later, start, period)
  {
    var times := [first] + later;
    if first - start > period && Spaced(later, first, period) {
      forall k | 0 <= k < |times| ensures times[k] - Before(times, start, k) > period {
        if k > 0 {
          assert times[k] == later[k - 1] && Before(times, start, k) == Before(later, first, k - 1);
        }
      }
    }
  }

  lemma {:induction false} SpawnTimesFrom(c: Config, s: State, es: seq<Event>)
    ensures
      var times := SpawnTimes(c, s, es);
      var core := Run(c, s, es).core;
      core.spawned == s.core.spawned + |times| && core.lastSpawn == LastOf(times, s.core.lastSpawn)
      && Spaced(times, s.core.lastSpawn, c.period)
    decreases |es|
  {
    hide Next, LastOf, Spaced;
    if es == [] {
      SpacedNothing(s.core.lastSpawn, c.period);
    } else {
      var t := Next(c, s, es[0]);
      StepSpawns(c, s, es[0]);
      SpawnTimesFrom(c, t, es[1..]);
      var later := SpawnTimes(c, t, es[1..]);
      SpacedCons(t.core.lastSpawn, later, s.core.lastSpawn, c.period);
      assert [] + later == later;
    }
  }

  /** In every run there is one box for each such tick, they are more than a period apart, the
      first from the making of the game, and the last of them is what the game remembers. */
  lemma {:induction false} SpawnClock(c: Config, birth: int, es: seq<Event>)
    ensures
      var times := SpawnTimes(c, Fresh(birth), es);
      var core := Run(c, Fresh(birth), es).core;
      core.spawned == |times| && core.lastSpawn == LastOf(times, birth) && Spaced(times, birth, c.period)
  {
    hide Run, SpawnTimes, LastOf, Spaced;
    SpawnTimesFrom(c, Fresh(birth), es);
  }

  /** And whenever a tick takes place more than a period after the last one, it brings a box. */
  lemma {:induction false} SpawnsWhenDue(c: Config, birth: int, es: seq<Event>, now: int, place: Coordinates)
    requires Run(c, Fresh(birth), es).thread.Ticking?
    ensures
      var s := Run(c, Fresh(birth), es);
      Next(c, s, Tick(now, place)).core.spawned != s.core.spawned
      <==> now - LastOf(SpawnTimes(c, Fresh(birth), es), birth) > c.period
  {
    hide Run, SpawnTimes, LastOf, Spaced, Next;
    SpawnClock(c, birth, es);
    StepSpawns(c, Run(c, Fresh(birth), es), Tick(now, place));
  }

  // ----- the end

  lemma {:induction false} ScoreSplits(a: seq<Player>, b: seq<Player>)
    ensures Score(a + b) == Score(a) + Score(b)
    decreases |b|
  {
    if b == [] {
      assert a + b == a;
    } else {
      var n := |b| - 1;
      assert a + b == (a + b[..n]) + [b[n]] && b == b[..n] + [b[n]];
      ScoreSnoc(a + b[..n], b[n]);
      ScoreSnoc(b[..n], b[n]);
      ScoreSplits(a, b[..n]);
    }
  }

  /** A score adds up the points of the players and nothing else. */
  lemma {:induction false} ScoreIsSum(a: seq<Player>, b: seq<Player>, p: Player)
    ensures Score([]) == 0 && Score([p]) == p.points && Score(a + b) == Score(a) + Score(b)
  {
    ScoreSplits(a, b);
    assert [] + [p] == [p];
    ScoreSnoc([], p);
  }

  /** The loop ends at a check exactly when either team has reached the goal or it was told to. */
  lemma {:induction false} CheckStops(c: Config, s: State)
    requires s.thread.Checking?
    ensures
      var w := s.core.world;
      Next(c, s, Check) == s.(thread :=
        if Score(w.red) >= c.pointsToWin || Score(w.blue) >= c.pointsToWin || s.terminate then Stopped else Ticking)
  {
    hide Score;
  }

  lemma {:induction false} StepAfterTerminate(c: Config, s: State, e: Event)
    requires s.terminate
    ensures Next(c, s, e).terminate
    ensures
      var rest := (t: State) => if t.thread.Ticking? then 1 else 0;
      Next(c, s, e).core.seqNum + rest(Next(c, s, e)) <= s.core.seqNum + rest(s)
  {
    hide MoveAll, WithInput, NewPlayer, Finished;
  }

  /** Once told to stop, the game makes at most one more tick. */
  lemma {:induction false} TerminateStops(c: Config, s: State, es: seq<Event>)
    requires s.terminate
    ensures Run(c, s, es).core.seqNum <= s.core.seqNum + (if s.thread.Ticking? then 1 else 0)
    decreases |es|
  {
    hide Next;
    if es != [] {
      StepAfterTerminate(c, s, es[0]);
      TerminateStops(c, Next(c, s, es[0]), es[1..]);
    }
  }

  // ----- what clients see

  /** A view shows a team: its score, and each player with its own fields. */
  ghost predicate Shows(view: TeamView, players: seq<Player>) {
    && view.score == Score(players) && |view.players| == |players|
    && forall j :: 0 <= j < |players| ==>
         view.players[j].name == players[j].name && view.players[j].id == players[j].id
         && view.players[j].points == players[j].points && view.players[j].position == players[j].position
         && view.players[j].vehicle == players[j].vehicle
  }

  lemma {:induction false} ViewShows(players: seq<Player>)
    ensures Shows(ViewTeam(players), players)
    decreases |players|
  {
    hide Score;
    if players != [] {
      ViewShows(players[..|players| - 1]);
    }
  }

  /** A snapshot shows the red team as red, the blue one as blue, the boxes, the sequence
      number, and whether either team has reached the goal. */
  lemma {:induction false} SnapshotShows(c: Config, s: Core)
    ensures
      var shot := TakeSnapshot(c, s);
      && shot.sequence == s.seqNum && shot.boxes == s.world.boxes
      && Shows(shot.red, s.world.red) && Shows(shot.blue, s.world.blue)
      && (shot.finished <==> Score(s.world.red) >= c.pointsToWin || Score(s.world.blue) >= c.pointsToWin)
  {
    hide Shows, ViewTeam, Score;
    ViewShows(s.world.red);
    ViewShows(s.world.blue);
  }
}
