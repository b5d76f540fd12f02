/** What holds in every run of the game, however ticks, joins and inputs interleave. */
module GameLaws {
  import opened Geometry
  import opened GameSpec

  // ----- collecting is exact

  /** The places of the boxes out of reach. */
  function KeptAt(g: Globe, boxes: seq<PointBox>, from: Coordinates, to: Coordinates): seq<nat> {
    if boxes == [] then [] else
      var n := |boxes| - 1;
      KeptAt(g, boxes[..n], from, to) + (if InReach(g, boxes[n], from, to) then [] else [n])
  }

  ghost predicate Increasing(at: seq<nat>, bound: nat) {
    (forall k :: 0 <= k < |at| ==> at[k] < bound) && forall j, k :: 0 <= j < k < |at| ==> at[j] < at[k]
  }

  /** `kept` lists the boxes at the places `at`. */
  ghost predicate Picks(boxes: seq<PointBox>, at: seq<nat>, kept: seq<PointBox>) {
    Increasing(at, |boxes|) && |at| == |kept| && forall k :: 0 <= k < |at| ==> kept[k] == boxes[at[k]]
  }

  lemma {:induction false} PicksNothing()
    ensures Picks([], [], [])
  {
  }

  lemma {:induction false} PicksSnoc(boxes: seq<PointBox>, at: seq<nat>, kept: seq<PointBox>, last: PointBox)
    requires Picks(boxes, at, kept)
    ensures |boxes| !in at && Picks(boxes + [last], at, kept) && Picks(boxes + [last], at + [|boxes|], kept + [last])
  {
  }

  lemma {:induction false} KeptPicked(g: Globe, boxes: seq<PointBox>, from: Coordinates, to: Coordinates)
    ensures Picks(boxes, KeptAt(g, boxes, from, to), Kept(g, boxes, from, to))
    decreases |boxes|
  {
    hide InReach, Picks;
    if boxes == [] {
      PicksNothing();
    } else {
      var n := |boxes| - 1;
      var at, kept := KeptAt(g, boxes[..n], from, to), Kept(g, boxes[..n], from, to);
      KeptPicked(g, boxes[..n], from, to);
      PicksSnoc(boxes[..n], at, kept, boxes[n]);
      assert boxes == boxes[..n] + [boxes[n]];
      assert at + [] == at && kept + [] == kept;
    }
  }

  lemma {:induction false} KeptPlaces(g: Globe, boxes: seq<PointBox>, from: Coordinates, to: Coordinates, i: nat)
    requires i < |boxes|
    ensures i in KeptAt(g, boxes, from, to) <==> !InReach(g, boxes[i], from, to)
    decreases |boxes|
  {
    hide InReach, Picks, Kept;
    var n := |boxes| - 1;
    KeptPicked(g, boxes[..n], from, to);
    PicksSnoc(boxes[..n], KeptAt(g, boxes[..n], from, to), Kept(g, boxes[..n], from, to), boxes[n]);
    if i < n {
      KeptPlaces(g, boxes[..n], from, to, i);
    }
  }

  /** The boxes left are exactly those out of reach, in their order. */
  lemma {:induction false} KeptExact(g: Globe, boxes: seq<PointBox>, from: Coordinates, to: Coordinates)
    ensures
      var at, kept := KeptAt(g, boxes, from, to), Kept(g, boxes, from, to);
      Picks(boxes, at, kept) && forall i :: 0 <= i < |boxes| ==> (i in at <==> !InReach(g, boxes[i], from, to))
  {
    hide InReach, Picks, KeptAt, Kept;
    KeptPicked(g, boxes, from, to);
    forall i | 0 <= i < |boxes| ensures i in KeptAt(g, boxes, from, to) <==> !InReach(g, boxes[i], from, to) {
      KeptPlaces(g, boxes, from, to, i);
    }
  }

  /** The boxes left and the boxes taken make up what was there, each box once. */
  lemma {:induction false} SweepPartition(g: Globe, boxes: seq<PointBox>, from: Coordinates, to: Coordinates)
    ensures multiset(boxes) == multiset(Kept(g, boxes, from, to)) + multiset(Taken(g, boxes, from, to))
    ensures forall b :: b in Taken(g, boxes, from, to) ==> InReach(g, b, from, to)
    decreases |boxes|
  {
    hide InReach;
    if boxes != [] {
      var n := |boxes| - 1;
      assert boxes == boxes[..n] + [boxes[n]];
      SweepPartition(g, boxes[..n], from, to);
    }
  }

  /** At some moment of the move the box is less than five metres away. */
  ghost predicate PassesNear(g: Globe, b: PointBox, from: Coordinates, to: Coordinates) {
    exists t :: 0.0 <= t <= 1.0 && DistanceAt(g, b, from, to, t) < 25.0
  }

  function DistanceAt(g: Globe, b: PointBox, from: Coordinates, to: Coordinates, t: real): real {
    SquaredDistance(ToMetres(g, b.position), Along(ToMetres(g, from), ToMetres(g, to), t))
  }

  lemma {:induction false} ReachMeansNear(g: Globe, b: PointBox, from: Coordinates, to: Coordinates)
    ensures InReach(g, b, from, to) <==> PassesNear(g, b, from, to)
  {
    var box, p, q := ToMetres(g, b.position), ToMetres(g, from), ToMetres(g, to);
    hide ToMetres, SquaredDistance, SegmentDistanceSquared, Along;
    WithinReach(box, p, q, 25.0);
    if InReach(g, b, from, to) {
      var t :| 0.0 <= t <= 1.0 && SquaredDistance(box, Along(p, q, t)) < 25.0;
      assert DistanceAt(g, b, from, to, t) < 25.0;
    }
    if PassesNear(g, b, from, to) {
      var t :| 0.0 <= t <= 1.0 && DistanceAt(g, b, from, to, t) < 25.0;
      assert SquaredDistance(box, Along(p, q, t)) < 25.0;
    }
  }

  /** Of the boxes there, a move takes exactly those it passes within five metres of. */
  lemma {:induction false} TakenOnTheWay(g: Globe, boxes: seq<PointBox>, from: Coordinates, to: Coordinates,
                                         b: PointBox)
    requires b in boxes
    ensures b in Taken(g, boxes, from, to) <==> PassesNear(g, b, from, to)
  {
    hide InReach, PassesNear, Kept, Taken;
    ReachMeansNear(g, b, from, to);
    KeptOutOfReach(g, boxes, from, to);
    SweepPartition(g, boxes, from, to);
    assert b in multiset(boxes);
  }

  lemma {:induction false} KeptOutOfReach(g: Globe, boxes: seq<PointBox>, from: Coordinates, to: Coordinates)
    ensures forall b :: b in Kept(g, boxes, from, to) ==> !InReach(g, b, from, to)
    decreases |boxes|
  {
    hide InReach;
    if boxes != [] {
      KeptOutOfReach(g, boxes[..|boxes| - 1], from, to);
    }
  }

  lemma {:induction false} ValueOfNothing()
    ensures Value([]) == 0
  {
  }

  lemma {:induction false} SweepValue(g: Globe, boxes: seq<PointBox>, from: Coordinates, to: Coordinates)
    ensures Value(boxes) == Value(Kept(g, boxes, from, to)) + Value(Taken(g, boxes, from, to))
    decreases |boxes|
  {
    hide InReach, Value;
    if boxes == [] {
      ValueOfNothing();
    } else {
      var n := |boxes| - 1;
      var rest, last := boxes[..n], boxes[n];
      assert boxes == rest + [last];
      ValueSnoc(rest, last);
      SweepValue(g, rest, from, to);
      ValueSnoc(Kept(g, rest, from, to), last);
      ValueSnoc(Taken(g, rest, from, to), last);
      assert Kept(g, rest, from, to) + [] == Kept(g, rest, from, to);
      assert Taken(g, rest, from, to) + [] == Taken(g, rest, from, to);
    }
  }

  /** Every box is worth the standard value. */
  ghost predicate AllHundreds(boxes: seq<PointBox>) {
    forall i :: 0 <= i < |boxes| ==> boxes[i].value == POINT_BOX_VALUE
  }

  lemma {:induction false} HundredsAddUp(boxes: seq<PointBox>)
    requires AllHundreds(boxes)
    ensures Value(boxes) == POINT_BOX_VALUE * |boxes|
    decreases |boxes|
  {
    if boxes != [] {
      HundredsAddUp(boxes[..|boxes| - 1]);
    }
  }

  lemma {:induction false} SweepHundreds(g: Globe, boxes: seq<PointBox>, from: Coordinates, to: Coordinates)
    requires AllHundreds(boxes)
    ensures AllHundreds(Kept(g, boxes, from, to)) && AllHundreds(Taken(g, boxes, from, to))
    decreases |boxes|
  {
    hide InReach;
    if boxes != [] {
      SweepHundreds(g, boxes[..|boxes| - 1], from, to);
    }
  }

  // ----- points move from boxes to players

  lemma {:induction false} ScoreUpdate(players: seq<Player>, i: nat, p: Player)
    requires i < |players|
    ensures Score(players[i := p]) == Score(players) + p.points - players[i].points
    decreases |players|
  {
    var n := |players| - 1;
    if i < n {
      ScoreUpdate(players[..n], i, p);
      assert players[i := p][..n] == players[..n][i := p];
    } else {
      assert players[i := p][..n] == players[..n];
    }
  }

  lemma {:induction false} ScoreSnoc(players: seq<Player>, p: Player)
    ensures Score(players + [p]) == Score(players) + p.points
  {
  }

  lemma {:induction false} CollectConserves(g: Globe, p: Player, boxes: seq<PointBox>, dt: real)
    requires AllHundreds(boxes)
    ensures
      var q, left := Collected(g, p, boxes, dt), Remaining(g, p, boxes, dt);
      q.points + Value(left) == p.points + Value(boxes) && q.points >= p.points && AllHundreds(left)
  {
    hide Kept, Taken, Value;
    var to := Moved(g, p, dt).position;
    SweepValue(g, boxes, p.position, to);
    SweepHundreds(g, boxes, p.position, to);
    HundredsAddUp(Taken(g, boxes, p.position, to));
  }

  lemma {:induction false} TeamConserves(g: Globe, players: seq<Player>, boxes: seq<PointBox>, dt: real, n: nat)
    requires n <= |players| && AllHundreds(boxes)
    ensures
      var s := MoveTeam(g, players, boxes, dt, n);
      Score(s.players) + Value(s.boxes) == Score(players) + Value(boxes)
      && Score(s.players) >= Score(players) && AllHundreds(s.boxes)
    decreases n
  {
    hide Collected, Remaining, Value, Score, AllHundreds;
    if n > 0 {
      TeamConserves(g, players, boxes, dt, n - 1);
      var s := MoveTeam(g, players, boxes, dt, n - 1);
      var p := s.players[n - 1];
      CollectConserves(g, p, s.boxes, dt);
      ScoreUpdate(s.players, n - 1, Collected(g, p, s.boxes, dt));
    }
  }

  // ----- who gets a box

  /** The player's move in this tick passes within reach of the box. */
  predicate Passes(g: Globe, p: Player, b: PointBox, dt: real) {
    InReach(g, b, p.position, Moved(g, p, dt).position)
  }

  /** How often the box is there. */
  function Copies(boxes: seq<PointBox>, b: PointBox): nat {
    multiset(boxes)[b]
  }

  lemma {:induction false} TakenOrKept(g: Globe, p: Player, boxes: seq<PointBox>, dt: real, b: PointBox)
    ensures Copies(Taken(g, boxes, p.position, Moved(g, p, dt).position), b)
      == if Passes(g, p, b, dt) then Copies(boxes, b) else 0
    ensures Copies(Remaining(g, p, boxes, dt), b) == if Passes(g, p, b, dt) then 0 else Copies(boxes, b)
  {
    hide InReach, Kept, Taken, Moved;
    var to := Moved(g, p, dt).position;
    KeptOutOfReach(g, boxes, p.position, to);
    SweepPartition(g, boxes, p.position, to);
    var kept, taken := Kept(g, boxes, p.position, to), Taken(g, boxes, p.position, to);
    assert b in multiset(kept) <==> b in kept;
    assert b in multiset(taken) <==> b in taken;
  }

  /** None of the first `n` players passes the box. */
  ghost predicate Unpassed(g: Globe, players: seq<Player>, b: PointBox, dt: real, n: nat)
    requires n <= |players|
  {
    forall i :: 0 <= i < n ==> !Passes(g, players[i], b, dt)
  }

  /** What the last of `n` players does to what the others leave. */
  lemma {:induction false} MoveTeamStep(g: Globe, players: seq<Player>, boxes: seq<PointBox>, dt: real, n: nat)
    requires n <= |players|
    ensures n == 0 ==> MoveTeam(g, players, boxes, dt, n) == Sweep(players, boxes)
    ensures n > 0 ==>
      var s := MoveTeam(g, players, boxes, dt, n - 1);
      s.players[n - 1] == players[n - 1]
      && MoveTeam(g, players, boxes, dt, n).boxes == Remaining(g, players[n - 1], s.boxes, dt)
  {
    hide Remaining, Collected;
    if n > 0 {
      var s := MoveTeam(g, players, boxes, dt, n - 1);
      assert s.players[n - 1..][0] == players[n - 1..][0];
    }
  }

  /** What `n` players leave is what none of them passes. */
  lemma {:induction false} BoxesLeft(g: Globe, players: seq<Player>, boxes: seq<PointBox>, dt: real, n: nat,
                                     b: PointBox)
    requires n <= |players|
    ensures Copies(MoveTeam(g, players, boxes, dt, n).boxes, b)
      == if Unpassed(g, players, b, dt, n) then Copies(boxes, b) else 0
    decreases n
  {
    hide Passes, Remaining, Collected, Copies, MoveTeam;
    MoveTeamStep(g, players, boxes, dt, n);
    if n > 0 {
      BoxesLeft(g, players, boxes, dt, n - 1, b);
      var s := MoveTeam(g, players, boxes, dt, n - 1);
      TakenOrKept(g, players[n - 1], s.boxes, dt, b);
    }
  }

  lemma {:induction false} PlayerShare(g: Globe, players: seq<Player>, boxes: seq<PointBox>, dt: real, j: nat, n: nat)
    requires j < n <= |players|
    ensures MoveTeam(g, players, boxes, dt, n).players[j]
      == Collected(g, players[j], MoveTeam(g, players, boxes, dt, j).boxes, dt)
    decreases n
  {
    hide Remaining, Collected;
    if j == n - 1 {
      var s := MoveTeam(g, players, boxes, dt, n - 1);
      assert s.players[n - 1..][0] == players[n - 1..][0];
    } else {
      PlayerShare(g, players, boxes, dt, j, n - 1);
    }
  }

  /** The boxes player `j` takes in its team's turn, from what earlier players left. */
  function Share(g: Globe, players: seq<Player>, boxes: seq<PointBox>, dt: real, j: nat): seq<PointBox>
    requires j < |players|
  {
    var p := players[j];
    Taken(g, MoveTeam(g, players, boxes, dt, j).boxes, p.position, Moved(g, p, dt).position)
  }

  lemma {:induction false} SharePoints(g: Globe, players: seq<Player>, boxes: seq<PointBox>, dt: real, j: nat)
    requires j < |players|
    ensures MoveTeam(g, players, boxes, dt, |players|).players[j].points
      == players[j].points + Value(Share(g, players, boxes, dt, j))
  {
    hide MoveTeam, Taken, Value, Moved;
    PlayerShare(g, players, boxes, dt, j, |players|);
  }

  /** In a team's turn a player gets every copy of a box if it is the first to pass it, else none. */
  lemma {:induction false} FirstToPassTakes(g: Globe, players: seq<Player>, boxes: seq<PointBox>, dt: real, j: nat,
                                            b: PointBox)
    requires j < |players|
    ensures Copies(Share(g, players, boxes, dt, j), b)
      == if Passes(g, players[j], b, dt) && Unpassed(g, players, b, dt, j) then Copies(boxes, b) else 0
  {
    hide Passes, Unpassed, MoveTeam, Taken, Moved, Copies;
    BoxesLeft(g, players, boxes, dt, j, b);
    TakenOrKept(g, players[j], MoveTeam(g, players, boxes, dt, j).boxes, dt, b);
  }

  /** All that the first `n` players take. */
  function TeamTaken(g: Globe, players: seq<Player>, boxes: seq<PointBox>, dt: real, n: nat): multiset<PointBox>
    requires n <= |players|
  {
    if n == 0 then multiset{}
    else TeamTaken(g, players, boxes, dt, n - 1) + multiset(Share(g, players, boxes, dt, n - 1))
  }

  lemma {:induction false} TeamPartition(g: Globe, players: seq<Player>, boxes: seq<PointBox>, dt: real, n: nat)
    requires n <= |players|
    ensures multiset(boxes) == multiset(MoveTeam(g, players, boxes, dt, n).boxes) + TeamTaken(g, players, boxes, dt, n)
    decreases n
  {
    hide Taken, Kept, Moved, Collected, MoveTeam;
    MoveTeamStep(g, players, boxes, dt, n);
    if n > 0 {
      TeamPartition(g, players, boxes, dt, n - 1);
      var s, p := MoveTeam(g, players, boxes, dt, n - 1), players[n - 1];
      SweepPartition(g, s.boxes, p.position, Moved(g, p, dt).position);
    }
  }

  /** What red players leave for blue ones in a tick. */
  function LeftByRed(g: Globe, w: World, dt: real): seq<PointBox> {
    MoveTeam(g, w.red, w.boxes, dt, |w.red|).boxes
  }

  /** In a tick every box stays or goes to one player of one team, exactly once. */
  lemma {:induction false} TickPartition(g: Globe, w: World, dt: real)
    ensures multiset(w.boxes)
      == multiset(MoveAll(g, w, dt).boxes) + TeamTaken(g, w.red, w.boxes, dt, |w.red|)
         + TeamTaken(g, w.blue, LeftByRed(g, w, dt), dt, |w.blue|)
  {
    hide MoveTeam, TeamTaken;
    TeamPartition(g, w.red, w.boxes, dt, |w.red|);
    TeamPartition(g, w.blue, LeftByRed(g, w, dt), dt, |w.blue|);
  }

  /** A red player gains the boxes of the tick that no red player before it passes. */
  lemma {:induction false} RedShare(g: Globe, w: World, dt: real, j: nat, b: PointBox)
    requires j < |w.red|
    ensures
      var share := Share(g, w.red, w.boxes, dt, j);
      MoveAll(g, w, dt).red[j].points == w.red[j].points + Value(share)
      && Copies(share, b)
         == if Passes(g, w.red[j], b, dt) && Unpassed(g, w.red, b, dt, j) then Copies(w.boxes, b) else 0
  {
    hide MoveTeam, Share, Passes, Unpassed, Value, Copies;
    SharePoints(g, w.red, w.boxes, dt, j);
    FirstToPassTakes(g, w.red, w.boxes, dt, j, b);
  }

  /** A blue player gains the boxes of the tick that no red player and no blue player
      before it passes. */
  lemma {:induction false} BlueShare(g: Globe, w: World, dt: real, j: nat, b: PointBox)
    requires j < |w.blue|
    ensures
      var share := Share(g, w.blue, LeftByRed(g, w, dt), dt, j);
      MoveAll(g, w, dt).blue[j].points == w.blue[j].points + Value(share)
      && Copies(share, b)
         == if Passes(g, w.blue[j], b, dt) && Unpassed(g, w.red, b, dt, |w.red|) && Unpassed(g, w.blue, b, dt, j)
            then Copies(w.boxes, b) else 0
  {
    hide MoveTeam, Share, Passes, Unpassed, Value, Copies;
    SharePoints(g, w.blue, LeftByRed(g, w, dt), dt, j);
    FirstToPassTakes(g, w.blue, LeftByRed(g, w, dt), dt, j, b);
    BoxesLeft(g, w.red, w.boxes, dt, |w.red|, b);
  }

  /** A box survives a tick, in all its copies, exactly when no player of either team passes it. */
  lemma {:induction false} SurvivingBoxes(g: Globe, w: World, dt: real, b: PointBox)
    ensures Copies(MoveAll(g, w, dt).boxes, b)
      == if Unpassed(g, w.red, b, dt, |w.red|) && Unpassed(g, w.blue, b, dt, |w.blue|) then Copies(w.boxes, b) else 0
  {
    hide Unpassed, MoveTeam, Copies;
    BoxesLeft(g, w.red, w.boxes, dt, |w.red|, b);
    BoxesLeft(g, w.blue, LeftByRed(g, w, dt), dt, |w.blue|, b);
  }

  // ----- inputs

  /** None of the first `i` players has the id. */
  ghost predicate NoneBefore(players: seq<Player>, id: nat, i: nat)
    requires i <= |players|
  {
    forall k :: 0 <= k < i ==> players[k].id != id
  }

  lemma {:induction false} NoneBeforeStep(players: seq<Player>, id: nat, i: nat)
    requires i <= |players|
    ensures NoneBefore(players, id, i) <==> i == 0 || (players[0].id != id && NoneBefore(players[1..], id, i - 1))
  {
    if i > 0 && players[0].id != id && NoneBefore(players[1..], id, i - 1) {
      forall k | 0 <= k < i ensures players[k].id != id {
        assert k > 0 ==> players[k] == players[1..][k - 1];
      }
    }
  }

  /** Exactly the first player with the id of an input takes it over. */
  lemma {:induction false} FirstWithIdHears(players: seq<Player>, input: PlayerInput, i: nat)
    requires i < |players|
    ensures
      WithInput(players, input)[i]
      == if players[i].id == input.id && NoneBefore(players, input.id, i)
         then players[i].(input := input) else players[i]
    decreases |players|
  {
    hide NoneBefore;
    NoneBeforeStep(players, input.id, i);
    if players[0].id != input.id && i > 0 {
      FirstWithIdHears(players[1..], input, i - 1);
      assert players[1..][i - 1] == players[i];
    }
  }

  lemma {:induction false} InputKeepsScore(players: seq<Player>, input: PlayerInput)
    ensures Score(WithInput(players, input)) == Score(players)
    ensures ViewPlayers(WithInput(players, input)) == ViewPlayers(players)
    decreases |players|
  {
    var heard := WithInput(players, input);
    InputKeepsEach(players, input);
    SameScore(heard, players);
  }

  ghost predicate SameButInput(a: seq<Player>, b: seq<Player>) {
    |a| == |b| && forall i :: 0 <= i < |a| ==> a[i] == b[i].(input := a[i].input)
  }

  lemma {:induction false} InputKeepsEach(players: seq<Player>, input: PlayerInput)
    ensures SameButInput(WithInput(players, input), players)
    decreases |players|
  {
    if players != [] && players[0].id != input.id {
      InputKeepsEach(players[1..], input);
    }
  }

  lemma {:induction false} SameScore(a: seq<Player>, b: seq<Player>)
    requires SameButInput(a, b)
    ensures Score(a) == Score(b) && ViewPlayers(a) == ViewPlayers(b)
    decreases |a|
  {
    if a != [] {
      SameScore(a[..|a| - 1], b[..|b| - 1]);
    }
  }

  // ----- runs

  /** The tick loop: tick, then test for the end, in two separate locked steps. */
  datatype Thread = Ticking | Checking | Stopped

  datatype State = State(core: Core, thread: Thread, terminate: bool)

  datatype Event =
    | Join(name: string, id: nat, vehicle: VehicleType, position: Coordinates, toRed: bool)
    | Input(input: PlayerInput)
    | Tick(now: int, place: Coordinates)
    | Check
    | Terminate

  /** One locked step. An event its thread is not ready for changes nothing. */
  function Next(c: Config, s: State, e: Event): State {
    match e
    case Join(name, id, vehicle, position, toRed) =>
      s.(core := s.core.(world := JoinStep(s.core.world, NewPlayer(name, id, vehicle, position), toRed)))
    case Input(input) =>
      s.(core := s.core.(world := InputStep(s.core.world, input)))
    case Tick(now, place) =>
      if s.thread.Ticking? then s.(core := TickStep(c, s.core, now, place), thread := Checking) else s
    case Check =>
      if !s.thread.Checking? then s
      else if Finished(c, s.core.world) || s.terminate then s.(thread := Stopped)
      else s.(thread := Ticking)
    case Terminate =>
      s.(terminate := true)
  }

  function Run(c: Config, s: State, es: seq<Event>): State
    decreases |es|, c, s
  {
    if es == [] then s else Run(c, Next(c, s, es[0]), es[1..])
  }

  /** A new game, made at `birth`, whose thread is about to start. */
  function Fresh(birth: int): State {
    State(Core(World([], [], []), birth, 0, 0), Ticking, false)
  }

  /** Red score, blue score and the boxes left account for every box generated. */
  ghost predicate Balanced(s: State) {
    var w := s.core.world;
    Score(w.red) + Score(w.blue) + Value(w.boxes) == POINT_BOX_VALUE * s.core.spawned && AllHundreds(w.boxes)
  }

  /** Each box takes more than a period to appear. */
  ghost predicate Paced(c: Config, birth: int, s: State) {
    s.core.lastSpawn - birth >= s.core.spawned * c.period
    && (s.core.spawned > 0 ==> s.core.lastSpawn - birth > s.core.spawned * c.period)
  }

  lemma {:induction false} TickConserves(c: Config, s: Core, now: int, place: Coordinates)
    requires AllHundreds(s.world.boxes)
    ensures
      var t := TickStep(c, s, now, place);
      var w, v := s.world, t.world;
      Score(v.red) + Score(v.blue) + Value(v.boxes)
      == Score(w.red) + Score(w.blue) + Value(w.boxes) + POINT_BOX_VALUE * (t.spawned - s.spawned)
      && Score(v.red) >= Score(w.red) && Score(v.blue) >= Score(w.blue) && AllHundreds(v.boxes)
  {
    hide Score, Value, MoveTeam;
    var w := s.world;
    var boxes := if now - s.lastSpawn > c.period then w.boxes + [PointBox(place, POINT_BOX_VALUE)] else w.boxes;
    ValueSnoc(w.boxes, PointBox(place, POINT_BOX_VALUE));
    TeamConserves(c.globe, w.red, boxes, c.dt, |w.red|);
    var red := MoveTeam(c.globe, w.red, boxes, c.dt, |w.red|);
    TeamConserves(c.globe, w.blue, red.boxes, c.dt, |w.blue|);
  }

  /** A step keeps the balance, and no score falls. */
  lemma {:induction false} StepConserves(c: Config, s: State, e: Event)
    requires Balanced(s)
    ensures Balanced(Next(c, s, e))
    ensures Score(Next(c, s, e).core.world.red) >= Score(s.core.world.red)
    ensures Score(Next(c, s, e).core.world.blue) >= Score(s.core.world.blue)
  {
    hide Score, Value, AllHundreds, TickStep, NewPlayer, WithInput;
    var w := s.core.world;
    match e
    case Join(name, id, vehicle, position, toRed) =>
      var p := NewPlayer(name, id, vehicle, position);
      NewPlayerHasNothing(name, id, vehicle, position);
      ScoreSnoc(w.red, p);
      ScoreSnoc(w.blue, p);
    case Input(input) =>
      InputKeepsScore(w.red, input);
      InputKeepsScore(w.blue, input);
    case Tick(now, place) =>
      TickConserves(c, s.core, now, place);
    case Check =>
    case Terminate =>
  }

  lemma {:induction false} NewPlayerHasNothing(name: string, id: nat, vehicle: VehicleType, position: Coordinates)
    ensures NewPlayer(name, id, vehicle, position).points == 0
  {
  }

  lemma {:induction false} RunConserves(c: Config, s: State, es: seq<Event>)
    requires Balanced(s)
    ensures Balanced(Run(c, s, es))
    decreases |es|
  {
    hide Balanced, Next;
    if es != [] {
      StepConserves(c, s, es[0]);
      RunConserves(c, Next(c, s, es[0]), es[1..]);
    }
  }

  /** In every run, points are neither lost nor made: each box generated is worth
      its 100 points exactly once, to one player or still on the map. */
  lemma {:induction false} PointsConserved(c: Config, birth: int, es: seq<Event>)
    ensures Balanced(Run(c, Fresh(birth), es))
  {
    assert Balanced(Fresh(birth));
    RunConserves(c, Fresh(birth), es);
  }

  // ----- every box of a run, once

  /** The boxes on the map when the players of a tick start to move. */
  function BoxesAtTick(c: Config, s: Core, now: int, place: Coordinates): seq<PointBox> {
    if now - s.lastSpawn > c.period then s.world.boxes + [PointBox(place, POINT_BOX_VALUE)] else s.world.boxes
  }

  /** The boxes an event generates. */
  function Generated(c: Config, s: State, e: Event): multiset<PointBox> {
    if e.Tick? && s.thread.Ticking? && e.now - s.core.lastSpawn > c.period
    then multiset{PointBox(e.place, 100)}
    else multiset{}
  }

  /** The boxes all players of both teams take in an event. */
  function TakenBy(c: Config, s: State, e: Event): multiset<PointBox> {
    if e.Tick? && s.thread.Ticking? then
      var w := s.core.world.(boxes := BoxesAtTick(c, s.core, e.now, e.place));
      TeamTaken(c.globe, w.red, w.boxes, c.dt, |w.red|)
      + TeamTaken(c.globe, w.blue, LeftByRed(c.globe, w, c.dt), c.dt, |w.blue|)
    else multiset{}
  }

  function AllGenerated(c: Config, s: State, es: seq<Event>): multiset<PointBox>
    decreases |es|, c, s
  {
    if es == [] then multiset{} else Generated(c, s, es[0]) + AllGenerated(c, Next(c, s, es[0]), es[1..])
  }

  function AllTaken(c: Config, s: State, es: seq<Event>): multiset<PointBox>
    decreases |es|, c, s
  {
    if es == [] then multiset{} else TakenBy(c, s, es[0]) + AllTaken(c, Next(c, s, es[0]), es[1..])
  }

  lemma {:induction false} StepPartition(c: Config, s: State, e: Event)
    ensures multiset(s.core.world.boxes) + Generated(c, s, e)
      == multiset(Next(c, s, e).core.world.boxes) + TakenBy(c, s, e)
    ensures Next(c, s, e).core.spawned == s.core.spawned + |Generated(c, s, e)|
  {
    hide MoveAll, TeamTaken, LeftByRed, Finished, WithInput, NewPlayer;
    if e.Tick? && s.thread.Ticking? {
      var boxes := BoxesAtTick(c, s.core, e.now, e.place);
      TickPartition(c.globe, s.core.world.(boxes := boxes), c.dt);
      assert multiset(boxes) == multiset(s.core.world.boxes) + Generated(c, s, e);
    }
  }

  lemma {:induction false} Exchanged<T>(a: multiset<T>, g: multiset<T>, later: multiset<T>,
                                        b: multiset<T>, t: multiset<T>, taken: multiset<T>, end: multiset<T>)
    requires a + g == b + t && b + later == end + taken
    ensures a + (g + later) == end + (t + taken)
  {
    assert a + (g + later) == (a + g) + later == (b + later) + t;
  }

  lemma {:induction false} PartitionFrom(c: Config, s: State, es: seq<Event>)
    ensures multiset(s.core.world.boxes) + AllGenerated(c, s, es)
      == multiset(Run(c, s, es).core.world.boxes) + AllTaken(c, s, es)
    ensures Run(c, s, es).core.spawned == s.core.spawned + |AllGenerated(c, s, es)|
    decreases |es|
  {
    hide Next, Generated, TakenBy;
    if es != [] {
      StepPartition(c, s, es[0]);
      var t := Next(c, s, es[0]);
      PartitionFrom(c, t, es[1..]);
      Exchanged(multiset(s.core.world.boxes), Generated(c, s, es[0]), AllGenerated(c, t, es[1..]),
                multiset(t.core.world.boxes), TakenBy(c, s, es[0]), AllTaken(c, t, es[1..]),
                multiset(Run(c, s, es).core.world.boxes));
    }
  }

  /** In every run each box generated is still on the map or was taken by one player in
      one tick, exactly once. */
  lemma {:induction false} RunPartition(c: Config, birth: int, es: seq<Event>)
    ensures AllGenerated(c, Fresh(birth), es)
      == multiset(Run(c, Fresh(birth), es).core.world.boxes) + AllTaken(c, Fresh(birth), es)
    ensures |AllGenerated(c, Fresh(birth), es)| == Run(c, Fresh(birth), es).core.spawned
  {
    hide Run, AllGenerated, AllTaken;
    PartitionFrom(c, Fresh(birth), es);
  }

  lemma {:induction false} RunPaced(c: Config, birth: int, s: State, es: seq<Event>)
    requires Paced(c, birth, s)
    ensures Paced(c, birth, Run(c, s, es))
    decreases |es|
  {
    if es != [] {
      StepPaced(c, birth, s, es[0]);
      hide Paced, Next;
      RunPaced(c, birth, Next(c, s, es[0]), es[1..]);
    }
  }

  lemma {:induction false} StepPaced(c: Config, birth: int, s: State, e: Event)
    requires Paced(c, birth, s)
    ensures Paced(c, birth, Next(c, s, e))
  {
    hide MoveAll, Finished, WithInput;
    assert (s.core.spawned + 1) * c.period == s.core.spawned * c.period + c.period;
  }

  /** A team can only have won after enough boxes, and boxes take time: no team
      reaches the goal before ceil(goal / 100) full periods have passed. */
  lemma {:induction false} EarliestWin(c: Config, birth: int, es: seq<Event>)
    requires c.pointsToWin > 0 && c.period >= 0
    requires Finished(c, Run(c, Fresh(birth), es).core.world)
    ensures
      var core := Run(c, Fresh(birth), es).core;
      var needed := (c.pointsToWin + POINT_BOX_VALUE - 1) / POINT_BOX_VALUE;
      core.spawned >= needed && core.lastSpawn - birth > needed * c.period
      && POINT_BOX_VALUE * (core.spawned - |core.world.boxes|) >= c.pointsToWin
  {
    var s := Run(c, Fresh(birth), es);
    PointsConserved(c, birth, es);
    assert Paced(c, birth, Fresh(birth));
    RunPaced(c, birth, Fresh(birth), es);
    ScoresNotNegative(c, birth, es);
    hide Run, Score, Value;
    HundredsAddUp(s.core.world.boxes);
    var needed := (c.pointsToWin + POINT_BOX_VALUE - 1) / POINT_BOX_VALUE;
    MulMonotonic(needed, s.core.spawned, c.period);
  }

  lemma {:induction false} MulMonotonic(a: int, b: int, k: int)
    requires a <= b && k >= 0
    ensures a * k <= b * k
  {
  }

  lemma {:induction false} RunScores(c: Config, s: State, es: seq<Event>)
    requires Balanced(s)
    ensures Score(Run(c, s, es).core.world.red) >= Score(s.core.world.red)
    ensures Score(Run(c, s, es).core.world.blue) >= Score(s.core.world.blue)
    decreases |es|
  {
    hide Balanced, Next, Score;
    if es != [] {
      StepConserves(c, s, es[0]);
      RunScores(c, Next(c, s, es[0]), es[1..]);
    }
  }

  lemma {:induction false} ScoresNotNegative(c: Config, birth: int, es: seq<Event>)
    ensures
      var w := Run(c, Fresh(birth), es).core.world;
      Score(w.red) >= 0 && Score(w.blue) >= 0
  {
    assert Balanced(Fresh(birth));
    RunScores(c, Fresh(birth), es);
  }

  // ----- snapshots

  /** Between two snapshots of a run the sequence number and both scores do not
      fall, and a finished game stays finished. */
  lemma {:induction false} SnapshotsProgress(c: Config, birth: int, before: seq<Event>, between: seq<Event>)
    ensures
      var s := Run(c, Fresh(birth), before);
      var t := Run(c, s, between);
      var a, b := TakeSnapshot(c, s.core), TakeSnapshot(c, t.core);
      a.sequence <= b.sequence && a.red.score <= b.red.score && a.blue.score <= b.blue.score
      && (a.finished ==> b.finished)
  {
    var s := Run(c, Fresh(birth), before);
    PointsConserved(c, birth, before);
    RunScores(c, s, between);
    RunSequence(c, s, between);
  }

  lemma {:induction false} RunSequence(c: Config, s: State, es: seq<Event>)
    ensures Run(c, s, es).core.seqNum >= s.core.seqNum
    decreases |es|
  {
    hide MoveAll, Finished, WithInput;
    if es != [] {
      RunSequence(c, Next(c, s, es[0]), es[1..]);
    }
  }

  /** Without a new player, equal sequence numbers mean equal content, whatever
      inputs arrived in between. */
  lemma {:induction false} SameSequenceSameContent(c: Config, s: State, es: seq<Event>)
    requires forall i :: 0 <= i < |es| ==> !es[i].Join?
    requires Run(c, s, es).core.seqNum == s.core.seqNum
    ensures TakeSnapshot(c, Run(c, s, es).core) == TakeSnapshot(c, s.core)
    decreases |es|
  {
    hide TakeSnapshot;
    if es != [] {
      var t := Next(c, s, es[0]);
      RunSequence(c, t, es[1..]);
      StepContent(c, s, es[0]);
      SameSequenceSameContent(c, t, es[1..]);
    }
  }

  lemma {:induction false} StepContent(c: Config, s: State, e: Event)
    requires !e.Join?
    ensures
      var t := Next(c, s, e);
      t.core.seqNum >= s.core.seqNum
      && (t.core.seqNum == s.core.seqNum ==> TakeSnapshot(c, t.core) == TakeSnapshot(c, s.core))
  {
    hide MoveAll, WithInput, Score, ViewPlayers;
    if e.Input? {
      InputKeepsScore(s.core.world.red, e.input);
      InputKeepsScore(s.core.world.blue, e.input);
    }
  }

  // ----- the loop stops on a win

  /** A finished game is not waiting to tick. */
  ghost predicate Halting(c: Config, s: State) {
    Finished(c, s.core.world) ==> !s.thread.Ticking?
  }

  lemma {:induction false} StepHalts(c: Config, s: State, e: Event)
    requires Halting(c, s)
    ensures Halting(c, Next(c, s, e))
  {
    hide TickStep, Score, WithInput, NewPlayer;
    if e.Input? {
      InputKeepsScore(s.core.world.red, e.input);
      InputKeepsScore(s.core.world.blue, e.input);
    }
    if e.Join? {
      var p := NewPlayer(e.name, e.id, e.vehicle, e.position);
      NewPlayerHasNothing(e.name, e.id, e.vehicle, e.position);
      ScoreSnoc(s.core.world.red, p);
      ScoreSnoc(s.core.world.blue, p);
    }
  }

  lemma {:induction false} RunHalts(c: Config, s: State, es: seq<Event>)
    requires Halting(c, s)
    ensures Halting(c, Run(c, s, es))
    decreases |es|
  {
    hide Halting, Next;
    if es != [] {
      StepHalts(c, s, es[0]);
      RunHalts(c, Next(c, s, es[0]), es[1..]);
    }
  }

  /** Nothing but new players and inputs: what a finished game still shows. */
  ghost predicate Frozen(s: Core, t: Core) {
    t.seqNum == s.seqNum && t.spawned == s.spawned && t.world.boxes == s.world.boxes
    && Score(t.world.red) == Score(s.world.red) && Score(t.world.blue) == Score(s.world.blue)
    && ViewPlayers(s.world.red) <= ViewPlayers(t.world.red)
    && ViewPlayers(s.world.blue) <= ViewPlayers(t.world.blue)
  }

  /** Once a team has won no tick follows: the sequence number, the boxes, both
      scores, and the position and points of every player stay as the winning
      tick left them, and new players only come after the old ones. */
  lemma {:induction false} WinFreezesGame(c: Config, birth: int, before: seq<Event>, after: seq<Event>)
    requires c.pointsToWin > 0
    requires Finished(c, Run(c, Fresh(birth), before).core.world)
    ensures
      var s := Run(c, Fresh(birth), before);
      Frozen(s.core, Run(c, s, after).core)
  {
    var s := Run(c, Fresh(birth), before);
    assert Halting(c, Fresh(birth));
    RunHalts(c, Fresh(birth), before);
    FinishedFreezes(c, s, after);
  }

  lemma {:induction false} JoinFreezes(players: seq<Player>, p: Player)
    requires p.points == 0
    ensures Score(players + [p]) == Score(players) && ViewPlayers(players) <= ViewPlayers(players + [p])
  {
  }

  lemma {:induction false} StepFreezes(c: Config, s: State, e: Event)
    requires Finished(c, s.core.world) && !s.thread.Ticking?
    ensures
      var t := Next(c, s, e);
      Frozen(s.core, t.core) && Finished(c, t.core.world) && !t.thread.Ticking?
  {
    hide Score, ViewPlayers, WithInput, NewPlayer, TickStep;
    if e.Input? {
      InputKeepsScore(s.core.world.red, e.input);
      InputKeepsScore(s.core.world.blue, e.input);
    }
    if e.Join? {
      var p := NewPlayer(e.name, e.id, e.vehicle, e.position);
      NewPlayerHasNothing(e.name, e.id, e.vehicle, e.position);
      JoinFreezes(s.core.world.red, p);
      JoinFreezes(s.core.world.blue, p);
    }
  }

  lemma {:induction false} FinishedFreezes(c: Config, s: State, es: seq<Event>)
    requires Finished(c, s.core.world) && !s.thread.Ticking?
    ensures Frozen(s.core, Run(c, s, es).core)
    decreases |es|
  {
    hide Score, ViewPlayers, Next, Finished;
    if es != [] {
      StepFreezes(c, s, es[0]);
      FinishedFreezes(c, Next(c, s, es[0]), es[1..]);
    }
  }
}
