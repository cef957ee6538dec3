/** The values every other module works on: the cells of the arena, addressed by
    their index, the Voronoi edges they are built from, and the moves the user
    queues between two turns. */
module Arena {

  datatype Option<T> = None | Some(value: T)

  /** Who holds a cell. The game stores these as the numbers 0, 1 and 2. */
  datatype Control = Neutral | Player1 | Player2

  /** The faction the local user plays; every queued move is the user's. */
  const UserPlayer: Control := Player1

  /** Armies on a cell when the field is generated. */
  const BaseArmies: int := 50
  /** Armies on each faction's start cell. */
  const StartArmies: int := 200
  /** Armies added to every user cell at the end of a turn. */
  const RefillBonus: int := 10

  /** The field is 100 by 100; player 1 starts nearest the middle of the top
      edge, player 2 nearest the middle of the bottom edge. */
  const Player1Anchor: Point := Point(50.0, 0.0)
  const Player2Anchor: Point := Point(50.0, 100.0)

  datatype Point = Point(x: real, y: real)

  /** One Voronoi cell of the field. `id` is its index in the arena,
      `location` the site it was generated from, `neighbours` the indices of
      the cells across its edges, `border` whether it touches the outer
      boundary. Only `control` and `armies` change after generation. */
  datatype Cell = Cell(
    id: nat,
    location: Point,
    control: Control,
    armies: int,
    neighbours: seq<nat>,
    border: bool)

  /** An edge of the Voronoi diagram: the indices of the cells on its left
      and on its right; a side is absent on the outer boundary. */
  datatype Edge = Edge(left: Option<nat>, right: Option<nat>)

  /** A queued order to send armies from one cell to another. */
  datatype Move = Move(from: nat, to: nat)
}
