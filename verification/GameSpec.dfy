/** The game as a value: teams, point boxes, and the steps that change them. */
module GameSpec {
  import opened Geometry

  /** Degrees on the globe. */
  datatype Coordinates = Coordinates(longitude: real, latitude: real)

  datatype VehicleType = PEDESTRIAN | CYCLIST | CAR

  datatype PlayerInput = PlayerInput(id: nat, move: bool, direction: real)

  datatype Player = Player(
    name: string, id: nat, vehicle: VehicleType,
    points: int, distanceTraveled: real, position: Coordinates, input: PlayerInput)

  datatype PointBox = PointBox(position: Coordinates, value: int)

  const POINT_BOX_VALUE := 100

  /** Trigonometry, taken as given: a cosine, and where a move of some distance
      in some direction leads. */
  datatype Globe = Globe(cosine: real -> real, travel: (Coordinates, real, real) -> Coordinates)

  function VehicleSpeed(vehicle: VehicleType): real {
    match vehicle
    case PEDESTRIAN => 5.0
    case CYCLIST => 9.0
    case CAR => 13.88
  }

  function ToMetres(g: Globe, c: Coordinates): Point {
    Point(40075000.0 * g.cosine(c.latitude) / 360.0 * c.longitude, c.latitude * 111320.0)
  }

  /** The box is less than five metres from the segment of the move. */
  predicate InReach(g: Globe, box: PointBox, from: Coordinates, to: Coordinates) {
    SegmentDistanceSquared(ToMetres(g, box.position), ToMetres(g, from), ToMetres(g, to)) < 25.0
  }

  // ----- collecting boxes

  /** The boxes out of reach, in their order. */
  function Kept(g: Globe, boxes: seq<PointBox>, from: Coordinates, to: Coordinates): (kept: seq<PointBox>)
    ensures |kept| <= |boxes|
  {
    if boxes == [] then [] else
      var last := boxes[|boxes| - 1];
      Kept(g, boxes[..|boxes| - 1], from, to) + (if InReach(g, last, from, to) then [] else [last])
  }

  /** The boxes in reach, in their order. */
  function Taken(g: Globe, boxes: seq<PointBox>, from: Coordinates, to: Coordinates): seq<PointBox> {
    if boxes == [] then [] else
      var last := boxes[|boxes| - 1];
      Taken(g, boxes[..|boxes| - 1], from, to) + (if InReach(g, last, from, to) then [last] else [])
  }

  function Value(boxes: seq<PointBox>): int {
    if boxes == [] then 0 else Value(boxes[..|boxes| - 1]) + boxes[|boxes| - 1].value
  }

  lemma {:induction false} SweepNothing(g: Globe, from: Coordinates, to: Coordinates)
    ensures Kept(g, [], from, to) == [] && Value(Taken(g, [], from, to)) == 0
  {
  }

  lemma {:induction false} ValueSnoc(boxes: seq<PointBox>, box: PointBox)
    ensures Value(boxes + [box]) == Value(boxes) + box.value
  {
  }

  /** One more box examined. */
  lemma {:induction false} SweepNext(g: Globe, boxes: seq<PointBox>, k: nat, from: Coordinates, to: Coordinates)
    requires k < |boxes|
    ensures
      var hit := InReach(g, boxes[k], from, to);
      Kept(g, boxes[..k + 1], from, to) == Kept(g, boxes[..k], from, to) + (if hit then [] else [boxes[k]])
      && Value(Taken(g, boxes[..k + 1], from, to))
         == Value(Taken(g, boxes[..k], from, to)) + (if hit then boxes[k].value else 0)
  {
    hide InReach, Value;
    assert boxes[..k + 1][..k] == boxes[..k];
    ValueSnoc(Taken(g, boxes[..k], from, to), boxes[k]);
    assert Taken(g, boxes[..k], from, to) + [] == Taken(g, boxes[..k], from, to);
  }

  function Score(players: seq<Player>): int {
    if players == [] then 0 else Score(players[..|players| - 1]) + players[|players| - 1].points
  }

  // ----- steps

  function NewPlayer(name: string, id: nat, vehicle: VehicleType, position: Coordinates): Player {
    Player(name, id, vehicle, 0, 0.0, position, PlayerInput(0, false, 0.0))
  }

  /** The player after a move of `dt` seconds, before the points are added. */
  function Moved(g: Globe, p: Player, dt: real): Player {
    if !p.input.move then p else
      var distance := VehicleSpeed(p.vehicle) * dt;
      p.(position := g.travel(p.position, distance, p.input.direction),
         distanceTraveled := p.distanceTraveled + (if distance > 0.0 then distance else 0.0))
  }

  function Collected(g: Globe, p: Player, boxes: seq<PointBox>, dt: real): Player {
    var q := Moved(g, p, dt);
    q.(points := p.points + Value(Taken(g, boxes, p.position, q.position)))
  }

  function Remaining(g: Globe, p: Player, boxes: seq<PointBox>, dt: real): seq<PointBox> {
    Kept(g, boxes, p.position, Moved(g, p, dt).position)
  }

  datatype Sweep = Sweep(players: seq<Player>, boxes: seq<PointBox>)

  /** The first `n` players move and collect, one after the other. */
  function MoveTeam(g: Globe, players: seq<Player>, boxes: seq<PointBox>, dt: real, n: nat): (s: Sweep)
    requires n <= |players|
    ensures |s.players| == |players| && s.players[n..] == players[n..]
  {
    if n == 0 then Sweep(players, boxes) else
      var s := MoveTeam(g, players, boxes, dt, n - 1);
      assert s.players[n - 1..][1..] == players[n - 1..][1..];
      var p := s.players[n - 1];
      Sweep(s.players[n - 1 := Collected(g, p, s.boxes, dt)], Remaining(g, p, s.boxes, dt))
  }

  /** Only the first player with that id hears the input. */
  function WithInput(players: seq<Player>, input: PlayerInput): (s: seq<Player>)
    ensures |s| == |players|
  {
    if players == [] then []
    else if players[0].id == input.id then [players[0].(input := input)] + players[1..]
    else [players[0]] + WithInput(players[1..], input)
  }

  datatype World = World(red: seq<Player>, blue: seq<Player>, boxes: seq<PointBox>)

  /** Red players move first, then blue ones. */
  function MoveAll(g: Globe, w: World, dt: real): World {
    var red := MoveTeam(g, w.red, w.boxes, dt, |w.red|);
    var blue := MoveTeam(g, w.blue, red.boxes, dt, |w.blue|);
    World(red.players, blue.players, blue.boxes)
  }

  /** `Core` is what the mutex guards; `spawned` is a history variable. */
  datatype Core = Core(world: World, lastSpawn: int, seqNum: nat, spawned: nat)

  datatype Config = Config(globe: Globe, dt: real, pointsToWin: int, period: int)

  function TickStep(c: Config, s: Core, now: int, at: Coordinates): Core {
    var spawns := now - s.lastSpawn > c.period;
    var boxes := if spawns then s.world.boxes + [PointBox(at, POINT_BOX_VALUE)] else s.world.boxes;
    Core(MoveAll(c.globe, s.world.(boxes := boxes), c.dt), if spawns then now else s.lastSpawn,
         s.seqNum + 1, if spawns then s.spawned + 1 else s.spawned)
  }

  function JoinStep(w: World, p: Player, toRed: bool): World {
    if toRed then w.(red := w.red + [p]) else w.(blue := w.blue + [p])
  }

  function InputStep(w: World, input: PlayerInput): World {
    World(WithInput(w.red, input), WithInput(w.blue, input), w.boxes)
  }

  predicate Finished(c: Config, w: World) {
    Score(w.red) >= c.pointsToWin || Score(w.blue) >= c.pointsToWin
  }

  // ----- what clients are sent

  datatype PlayerView = PlayerView(name: string, id: nat, points: int, position: Coordinates, vehicle: VehicleType)

  datatype TeamView = TeamView(score: int, players: seq<PlayerView>)

  datatype Snapshot = Snapshot(sequence: nat, red: TeamView, blue: TeamView, boxes: seq<PointBox>, finished: bool)

  function ViewPlayers(players: seq<Player>): (vs: seq<PlayerView>)
    ensures |vs| == |players|
  {
    if players == [] then [] else
      var p := players[|players| - 1];
      ViewPlayers(players[..|players| - 1]) + [PlayerView(p.name, p.id, p.points, p.position, p.vehicle)]
  }

  function ViewTeam(players: seq<Player>): TeamView {
    TeamView(Score(players), ViewPlayers(players))
  }

  function TakeSnapshot(c: Config, s: Core): Snapshot {
    Snapshot(s.seqNum, ViewTeam(s.world.red), ViewTeam(s.world.blue), s.world.boxes, Finished(c, s.world))
  }
}
