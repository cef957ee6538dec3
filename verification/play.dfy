/** The running game: the arena of cells, generated once, and the ledger of
    moves the user queues between turns. Submitting a move checks it and
    records it; a turn resolves the queued moves in order, empties the ledger
    and reinforces the user's cells. */
module Play {
  import opened Arena
  import opened Field
  import opened Ledger
  import opened Resolution

  class Game {
    /** The arena; its cells are updated in place, the array is never replaced. */
    const cells: array<Cell>
    /** The queued moves, in the order they were first submitted. */
    var moves: seq<Move>
    /** The cells the scans picked for player 1's and player 2's start. */
    ghost const player1Start: nat
    ghost const player2Start: nat

    /** Armies are never negative, every user cell holds at least one, and every
        queued move is still admissible, one per source. */
    ghost predicate Valid()
      reads this, cells
    {
      Healthy(cells[..]) && LedgerOk(moves, cells[..])
    }

    /** Generates the field from a Voronoi diagram and starts with no moves. */
    constructor (sites: seq<Point>, edges: seq<Edge>, halfedges: seq<seq<nat>>)
      requires |sites| > 0
      requires DiagramOk(|sites|, edges, halfedges)
      ensures Valid()
      ensures fresh(cells) && cells.Length == |sites|
      ensures moves == []
      ensures forall i :: 0 <= i < |sites| ==>
        && cells[i].id == i
        && cells[i].location == sites[i]
        && cells[i].neighbours == NeighbourList(i, halfedges[i], edges)
        && cells[i].border == HasOpenEdge(halfedges[i], edges)
        && (cells[i].control == Neutral ==> cells[i].armies == BaseArmies)
        && (cells[i].control != Neutral ==> cells[i].armies == StartArmies)
      ensures CountOwned(cells[..], Player2) == 1
      ensures player1Start < |sites| && player2Start < |sites|
      ensures Picks(Distances(cells[..], Player1Anchor), player1Start)
      ensures Picks(Distances(cells[..], Player2Anchor), player2Start)
      ensures forall i :: 0 <= i < |sites| ==>
        cells[i] == StartingCell(sites, edges, halfedges, i, player1Start, player2Start)
    {
      var field, start1, start2 := CreateField(sites, edges, halfedges);
      cells := field;
      moves := [];
      player1Start := start1;
      player2Start := start2;
      new;
      OnePlayer2Cell(cells[..], player2Start);
    }

    /** Submits the user's move from `from` to `to`. It is accepted exactly when
        it is admissible; an accepted move replaces the target of the queued move
        from the same source, or is queued at the end when there is none; a
        rejected one leaves the ledger as it was. */
    method AddMove(from: nat, to: nat) returns (accepted: bool)
      requires Valid()
      requires from < cells.Length && to < cells.Length
      modifies this
      ensures Valid()
      ensures accepted == Admissible(cells[..], from, to)
      ensures moves == if accepted then Record(old(moves), Move(from, to)) else old(moves)
    {
      if from != to && cells[from].control == UserPlayer && to in cells[from].neighbours {
        var found := FindMove(moves, from);
        RecordKeepsLedger(moves, cells[..], from, to);
        if found.Some? {
          RecordReplaces(moves, found.value, Move(from, to));
          moves := moves[found.value := moves[found.value].(to := to)];
        } else {
          RecordAppends(moves, Move(from, to));
          moves := moves + [Move(from, to)];
        }
        return true;
      }
      return false;
    }

    /** Resolves every queued move in the order queued, then empties the
        ledger. */
    method ExecuteMoves()
      requires Valid()
      modifies this, cells
      ensures Valid()
      ensures moves == []
      ensures cells[..] == ApplyMoves(old(cells[..]), old(moves))
    {
      ghost var start := cells[..];
      assert InArena(moves, cells.Length) && SourcesOwned(start, moves) by {
        forall k | 0 <= k < |moves| ensures moves[k] in moves { }
      }
      var i := 0;
      while i < |moves|
        invariant 0 <= i <= |moves| && moves == old(moves)
        invariant InArena(moves[..i], cells.Length)
        invariant cells[..] == ApplyMoves(start, moves[..i])
      {
        assert moves[..i + 1][..i] == moves[..i];
        ResolveMove(moves[i]);
        i := i + 1;
      }
      assert moves[..|moves|] == moves;
      MovesKeepHealth(start, moves);
      moves := [];
    }

    /** Resolves one move in place: combat when the two cells have different
        owners, a transfer otherwise. */
    method ResolveMove(move: Move)
      requires move.from < cells.Length && move.to < cells.Length
      modifies cells
      ensures cells[..] == ApplyMove(old(cells[..]), move)
    {
      if cells[move.from].control != cells[move.to].control {
        var attacking := cells[move.from].armies - 1;
        var defending := cells[move.to].armies;
        cells[move.from] := cells[move.from].(armies := 1);
        cells[move.to] := cells[move.to].(armies := defending - attacking);
        if cells[move.to].armies < 0 {
          cells[move.to] := cells[move.to].(control := UserPlayer, armies := -cells[move.to].armies);
        }
      } else {
        cells[move.to] := cells[move.to].(armies := cells[move.to].armies + cells[move.from].armies - 1);
        cells[move.from] := cells[move.from].(armies := 1);
      }
    }

    /** Adds the bonus to every cell the user holds. */
    method RefillArmies()
      requires Valid()
      modifies cells
      ensures Valid()
      ensures cells[..] == Reinforced(old(cells[..]))
    {
      for i := 0 to cells.Length
        invariant forall t :: 0 <= t < i ==> cells[t] == Reinforce(old(cells[t]))
        invariant forall t :: i <= t < cells.Length ==> cells[t] == old(cells[t])
      {
        if cells[i].control == UserPlayer {
          cells[i] := cells[i].(armies := cells[i].armies + RefillBonus);
        }
      }
      RefillAddsBonus(old(cells[..]));
    }

    /** One turn: the queued moves are resolved, then the user's cells are
        reinforced. */
    method Turn()
      requires Valid()
      modifies this, cells
      ensures Valid()
      ensures moves == []
      ensures cells[..] == Reinforced(ApplyMoves(old(cells[..]), old(moves)))
      ensures KeepsUserCells(old(cells[..]), cells[..])
    {
      ghost var start := cells[..];
      ghost var queued := moves;
      assert InArena(moves, cells.Length) && SourcesOwned(start, moves) by {
        forall k | 0 <= k < |moves| ensures moves[k] in moves { }
      }
      ExecuteMoves();
      RefillArmies();
      TurnKeepsHealth(start, queued);
    }
  }

  /** Exactly one cell is player 2's after generation: the cell picked for the
      bottom anchor. */
  lemma {:induction false} OnePlayer2Cell(cs: seq<Cell>, p: nat)
    requires p < |cs|
    requires forall i :: 0 <= i < |cs| ==> (cs[i].control == Player2 <==> i == p)
    ensures CountOwned(cs, Player2) == 1
  {
    var n := |cs| - 1;
    if p < n {
      OnePlayer2Cell(cs[..n], p);
    } else {
      NoneOwned(cs[..n], Player2);
    }
  }

  lemma {:induction false} NoneOwned(cs: seq<Cell>, q: Control)
    requires forall i :: 0 <= i < |cs| ==> cs[i].control != q
    ensures CountOwned(cs, q) == 0
  {
    if cs != [] {
      NoneOwned(cs[..|cs| - 1], q);
    }
  }
}
