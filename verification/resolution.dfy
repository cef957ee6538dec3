/** What a turn does to the arena, as functions of the cells: each queued move
    in turn (combat between different owners, a transfer between cells of one
    owner), then the reinforcement of every user cell. */
module Resolution {
  import opened Arena

  /** Every move names two cells of an arena of `n` cells. */
  predicate InArena(ms: seq<Move>, n: nat)
  {
    forall k :: 0 <= k < |ms| ==> ms[k].from < n && ms[k].to < n
  }

  /** One move. Between cells of different owners it is combat: the source
      keeps one army and attacks with the rest; a defender that drops below
      zero is captured for the user with the surplus as its garrison. Between
      cells of one owner it is a transfer of all armies but one. */
  function ApplyMove(cs: seq<Cell>, m: Move): (r: seq<Cell>)
    requires m.from < |cs| && m.to < |cs|
    ensures |r| == |cs|
  {
    var from := cs[m.from];
    var to := cs[m.to];
    if from.control != to.control then
      var attacking := from.armies - 1;
      var defending := to.armies;
      var cs1 := cs[m.from := from.(armies := 1)];
      var remaining := defending - attacking;
      if remaining < 0 then cs1[m.to := cs1[m.to].(control := UserPlayer, armies := -remaining)]
      else cs1[m.to := cs1[m.to].(armies := remaining)]
    else
      var cs1 := cs[m.to := to.(armies := to.armies + from.armies - 1)];
      cs1[m.from := cs1[m.from].(armies := 1)]
  }

  /** The moves applied one after another, in the order they were queued. */
  function ApplyMoves(cs: seq<Cell>, ms: seq<Move>): (r: seq<Cell>)
    requires InArena(ms, |cs|)
    ensures |r| == |cs|
  {
    if ms == [] then cs
    else ApplyMove(ApplyMoves(cs, ms[..|ms| - 1]), ms[|ms| - 1])
  }

  /** One cell after the reinforcement: only its armies can change, and they
      never drop. */
  function Reinforce(c: Cell): (r: Cell)
    ensures SameGeometry(r, c) && r.control == c.control
    ensures r.armies >= c.armies
  {
    if c.control == UserPlayer then c.(armies := c.armies + RefillBonus) else c
  }

  /** The arena after the end-of-turn reinforcement. */
  function Reinforced(cs: seq<Cell>): (r: seq<Cell>)
    ensures |r| == |cs|
  {
    seq(|cs|, i requires 0 <= i < |cs| => Reinforce(cs[i]))
  }

  function Min(a: int, b: int): int
  {
    if a <= b then a else b
  }

  /** The total number of armies on the field. */
  function TotalArmies(cs: seq<Cell>): int
  {
    if cs == [] then 0 else TotalArmies(cs[..|cs| - 1]) + cs[|cs| - 1].armies
  }

  /** The number of cells the faction `p` holds. */
  function CountOwned(cs: seq<Cell>, p: Control): nat
  {
    if cs == [] then 0
    else CountOwned(cs[..|cs| - 1], p) + (if cs[|cs| - 1].control == p then 1 else 0)
  }

  /** No cell has negative armies and every user cell has at least one. */
  ghost predicate Healthy(cs: seq<Cell>)
  {
    forall i :: 0 <= i < |cs| ==> cs[i].armies >= 0 && (cs[i].control == UserPlayer ==> cs[i].armies >= 1)
  }

  /** Every move leaves from a cell the user holds in `cs`. */
  ghost predicate SourcesOwned(cs: seq<Cell>, ms: seq<Move>)
  {
    forall k :: 0 <= k < |ms| ==> ms[k].from < |cs| && cs[ms[k].from].control == UserPlayer
  }

  /** Every cell the user holds in `cs` is still the user's in `r`. */
  ghost predicate KeepsUserCells(cs: seq<Cell>, r: seq<Cell>)
  {
    |r| == |cs| && forall i :: 0 <= i < |cs| && cs[i].control == UserPlayer ==> r[i].control == UserPlayer
  }

  /** `b` is `a` with at most its owner and armies changed. */
  predicate SameGeometry(a: Cell, b: Cell)
  {
    a.id == b.id && a.location == b.location && a.neighbours == b.neighbours && a.border == b.border
  }

  /** Combat: the source is left with one army; the defender loses as many
      armies as attack it, and when that leaves it below zero it becomes the
      user's with the absolute value (never the source owner's: the capture
      always goes to the user); otherwise its owner stays, possibly with zero
      armies. Both sides lose the same number of armies, the smaller of the two
      forces, and no other cell changes. */
  lemma CombatStep(cs: seq<Cell>, m: Move)
    requires m.from < |cs| && m.to < |cs|
    requires cs[m.from].control != cs[m.to].control
    ensures var r := ApplyMove(cs, m);
      var attacking := cs[m.from].armies - 1;
      var defending := cs[m.to].armies;
      && r[m.from] == cs[m.from].(armies := 1)
      && (defending < attacking ==> r[m.to] == cs[m.to].(control := UserPlayer, armies := attacking - defending))
      && (attacking <= defending ==> r[m.to] == cs[m.to].(armies := defending - attacking))
      && r[m.from].armies + r[m.to].armies == cs[m.from].armies + cs[m.to].armies - 2 * Min(attacking, defending)
      && forall i :: 0 <= i < |cs| && i != m.from && i != m.to ==> r[i] == cs[i]
  {
  }

  /** Transfer: the target gains all armies of the source but one, the source
      keeps one, owners stay, and the two cells hold as many armies together as
      before. */
  lemma TransferStep(cs: seq<Cell>, m: Move)
    requires m.from < |cs| && m.to < |cs| && m.from != m.to
    requires cs[m.from].control == cs[m.to].control
    ensures var r := ApplyMove(cs, m);
      && r[m.from] == cs[m.from].(armies := 1)
      && r[m.to] == cs[m.to].(armies := cs[m.to].armies + cs[m.from].armies - 1)
      && r[m.from].armies + r[m.to].armies == cs[m.from].armies + cs[m.to].armies
      && forall i :: 0 <= i < |cs| && i != m.from && i != m.to ==> r[i] == cs[i]
  {
  }

  /** A move from a user cell keeps every cell's armies non-negative and every
      user cell garrisoned, and the user loses no cell. */
  lemma StepKeepsHealth(cs: seq<Cell>, m: Move)
    requires m.from < |cs| && m.to < |cs|
    requires Healthy(cs) && cs[m.from].control == UserPlayer
    ensures Healthy(ApplyMove(cs, m))
    ensures KeepsUserCells(cs, ApplyMove(cs, m))
  {
  }

  /** Through a whole list of user moves the field stays healthy and the user
      loses no cell, since each move's source is still the user's when its
      turn comes. */
  lemma {:induction false} MovesKeepHealth(cs: seq<Cell>, ms: seq<Move>)
    requires InArena(ms, |cs|)
    requires Healthy(cs) && SourcesOwned(cs, ms)
    ensures Healthy(ApplyMoves(cs, ms))
    ensures KeepsUserCells(cs, ApplyMoves(cs, ms))
  {
    if ms != [] {
      var init := ms[..|ms| - 1];
      var last := ms[|ms| - 1];
      MovesKeepHealth(cs, init);
      var mid := ApplyMoves(cs, init);
      StepKeepsHealth(mid, last);
    }
  }

  /** One move changes only the owners and armies of its two cells, and only
      its target can change owner, to the user. */
  lemma StepFrame(cs: seq<Cell>, m: Move)
    requires m.from < |cs| && m.to < |cs|
    ensures var r := ApplyMove(cs, m);
      forall i :: 0 <= i < |cs| ==>
        && SameGeometry(r[i], cs[i])
        && (i != m.from && i != m.to ==> r[i] == cs[i])
        && (r[i].control != cs[i].control ==> r[i].control == UserPlayer && i == m.to)
  {
  }

  /** Moves change nothing but owners and armies; a cell no move names is left
      as it was; and a cell changes owner only by a capture, which makes it the
      user's and needs a move into it. */
  lemma {:induction false} OwnershipChangesOnlyByCapture(cs: seq<Cell>, ms: seq<Move>)
    requires InArena(ms, |cs|)
    ensures var r := ApplyMoves(cs, ms);
      forall i :: 0 <= i < |cs| ==>
        && SameGeometry(r[i], cs[i])
        && ((forall k :: 0 <= k < |ms| ==> ms[k].from != i && ms[k].to != i) ==> r[i] == cs[i])
        && (r[i].control != cs[i].control ==>
              r[i].control == UserPlayer && exists k :: 0 <= k < |ms| && ms[k].to == i)
  {
    if ms != [] {
      var n := |ms| - 1;
      var init := ms[..n];
      OwnershipChangesOnlyByCapture(cs, init);
      var mid := ApplyMoves(cs, init);
      StepFrame(mid, ms[n]);
      assert forall k :: 0 <= k < n ==> init[k] == ms[k];
    }
  }

  /** Replacing one cell changes the total by the difference of its armies. */
  lemma {:induction false} TotalUpdate(cs: seq<Cell>, i: nat, c: Cell)
    requires i < |cs|
    ensures TotalArmies(cs[i := c]) == TotalArmies(cs) - cs[i].armies + c.armies
  {
    var n := |cs| - 1;
    if i < n {
      TotalUpdate(cs[..n], i, c);
      assert cs[i := c][..n] == cs[..n][i := c];
    } else {
      assert cs[i := c][..n] == cs[..n];
    }
  }

  /** A move between two different cells removes from the field exactly the
      armies lost in combat, twice the smaller force; a transfer removes none. */
  lemma {:induction false} StepTotal(cs: seq<Cell>, m: Move)
    requires m.from < |cs| && m.to < |cs| && m.from != m.to
    ensures TotalArmies(ApplyMove(cs, m)) == TotalArmies(cs) -
      (if cs[m.from].control != cs[m.to].control
       then 2 * Min(cs[m.from].armies - 1, cs[m.to].armies) else 0)
  {
    if cs[m.from].control != cs[m.to].control {
      CombatTotal(cs, m);
    } else {
      TransferTotal(cs, m);
    }
  }

  lemma {:induction false} CombatTotal(cs: seq<Cell>, m: Move)
    requires m.from < |cs| && m.to < |cs| && m.from != m.to
    requires cs[m.from].control != cs[m.to].control
    ensures TotalArmies(ApplyMove(cs, m)) ==
      TotalArmies(cs) - 2 * Min(cs[m.from].armies - 1, cs[m.to].armies)
  {
    var attacking := cs[m.from].armies - 1;
    var defending := cs[m.to].armies;
    var cs1 := cs[m.from := cs[m.from].(armies := 1)];
    TotalUpdate(cs, m.from, cs[m.from].(armies := 1));
    assert cs1[m.to] == cs[m.to];
    var remaining := defending - attacking;
    var c := if remaining < 0 then cs1[m.to].(control := UserPlayer, armies := -remaining)
             else cs1[m.to].(armies := remaining);
    assert ApplyMove(cs, m) == cs1[m.to := c];
    TotalUpdate(cs1, m.to, c);
  }

  lemma {:induction false} TransferTotal(cs: seq<Cell>, m: Move)
    requires m.from < |cs| && m.to < |cs| && m.from != m.to
    requires cs[m.from].control == cs[m.to].control
    ensures TotalArmies(ApplyMove(cs, m)) == TotalArmies(cs)
  {
    var c := cs[m.to].(armies := cs[m.to].armies + cs[m.from].armies - 1);
    var cs1 := cs[m.to := c];
    TotalUpdate(cs, m.to, c);
    assert cs1[m.from] == cs[m.from];
    assert ApplyMove(cs, m) == cs1[m.from := cs1[m.from].(armies := 1)];
    TotalUpdate(cs1, m.from, cs1[m.from].(armies := 1));
  }

  /** Moves never create armies: on a healthy field, user moves between
      distinct cells leave at most as many armies as there were. */
  lemma {:induction false} MovesNeverCreateArmies(cs: seq<Cell>, ms: seq<Move>)
    requires InArena(ms, |cs|)
    requires Healthy(cs) && SourcesOwned(cs, ms)
    requires forall k :: 0 <= k < |ms| ==> ms[k].from != ms[k].to
    ensures TotalArmies(ApplyMoves(cs, ms)) <= TotalArmies(cs)
  {
    if ms != [] {
      var init := ms[..|ms| - 1];
      var last := ms[|ms| - 1];
      MovesNeverCreateArmies(cs, init);
      MovesKeepHealth(cs, init);
      var mid := ApplyMoves(cs, init);
      StepTotal(mid, last);
    }
  }

  /** Reinforcement adds exactly the bonus to every user cell and changes
      nothing else. */
  lemma RefillAddsBonus(cs: seq<Cell>)
    ensures |Reinforced(cs)| == |cs|
    ensures forall i :: 0 <= i < |cs| ==>
      && Reinforced(cs)[i].control == cs[i].control
      && SameGeometry(Reinforced(cs)[i], cs[i])
      && Reinforced(cs)[i].armies == cs[i].armies + (if cs[i].control == UserPlayer then RefillBonus else 0)
  {
  }

  /** Reinforcement adds the bonus once per user cell to the field's total. */
  lemma {:induction false} RefillTotal(cs: seq<Cell>)
    ensures TotalArmies(Reinforced(cs)) == TotalArmies(cs) + RefillBonus * CountOwned(cs, UserPlayer)
  {
    if cs != [] {
      var n := |cs| - 1;
      RefillTotal(cs[..n]);
      assert Reinforced(cs)[..n] == Reinforced(cs[..n]);
    }
  }

  /** A whole turn of user moves followed by reinforcement keeps the field
      healthy, and the user loses no cell over it. */
  lemma TurnKeepsHealth(cs: seq<Cell>, ms: seq<Move>)
    requires InArena(ms, |cs|)
    requires Healthy(cs) && SourcesOwned(cs, ms)
    ensures Healthy(Reinforced(ApplyMoves(cs, ms)))
    ensures KeepsUserCells(cs, Reinforced(ApplyMoves(cs, ms)))
  {
    MovesKeepHealth(cs, ms);
  }

  /** A turn with no queued moves only reinforces: no cell changes owner. */
  lemma EmptyTurnOnlyRefills(cs: seq<Cell>)
    ensures Reinforced(ApplyMoves(cs, [])) == Reinforced(cs)
    ensures forall i :: 0 <= i < |cs| ==> Reinforced(ApplyMoves(cs, []))[i].control == cs[i].control
  {
  }
}
