/** The list of moves the user has queued for the next turn: at most one per
    source cell, each checked against ownership and adjacency when it is
    submitted. */
module Ledger {
  import opened Arena

  /** No two queued moves leave from the same cell. */
  ghost predicate UniqueSources(ms: seq<Move>)
  {
    forall j, k :: 0 <= j < k < |ms| ==> ms[j].from != ms[k].from
  }

  /** The user may send armies from `from` to `to`: they are different cells,
      the user holds `from`, and `to` is one of its neighbours. */
  predicate Admissible(cs: seq<Cell>, from: nat, to: nat): (ok: bool)
    requires from < |cs|
    ensures ok ==> cs[from].control != Neutral && |cs[from].neighbours| >= 1
  {
    from != to && cs[from].control == UserPlayer && to in cs[from].neighbours
  }

  /** Every queued move is admissible in `cs`, and sources are unique. */
  ghost predicate LedgerOk(ms: seq<Move>, cs: seq<Cell>)
  {
    && UniqueSources(ms)
    && forall m :: m in ms ==> m.from < |cs| && m.to < |cs| && Admissible(cs, m.from, m.to)
  }

  /** The ledger after an accepted submission of `m`: the first queued move with
      the same source has its target replaced, and when there is none `m` is
      added at the end. */
  function Record(ms: seq<Move>, m: Move): (r: seq<Move>)
    ensures m in r
    ensures |r| == if exists k :: 0 <= k < |ms| && ms[k].from == m.from then |ms| else |ms| + 1
  {
    if ms == [] then [m]
    else if ms[0].from == m.from then [ms[0].(to := m.to)] + ms[1..]
    else [ms[0]] + Record(ms[1..], m)
  }

  /** The search for the queued move leaving from `from`. */
  method FindMove(moves: seq<Move>, from: nat) returns (k: Option<nat>)
    ensures k.Some? ==> k.value < |moves| && moves[k.value].from == from
    ensures k.Some? ==> forall j :: 0 <= j < k.value ==> moves[j].from != from
    ensures k.None? ==> forall j :: 0 <= j < |moves| ==> moves[j].from != from
  {
    var i := 0;
    while i < |moves|
      invariant 0 <= i <= |moves|
      invariant forall j :: 0 <= j < i ==> moves[j].from != from
    {
      if moves[i].from == from {
        return Some(i);
      }
      i := i + 1;
    }
    return None;
  }

  /** A resubmission from a queued source only retargets that entry: the
      length stays, the entry keeps its place, and every other entry stays. */
  lemma {:induction false} RecordReplaces(ms: seq<Move>, k: nat, m: Move)
    requires k < |ms| && ms[k].from == m.from
    requires forall j :: 0 <= j < k ==> ms[j].from != m.from
    ensures Record(ms, m) == ms[k := m]
  {
    if k > 0 {
      RecordReplaces(ms[1..], k - 1, m);
      assert ms[k := m] == [ms[0]] + ms[1..][k - 1 := m];
    }
  }

  /** A submission from a source with nothing queued adds exactly that move at
      the end and leaves the earlier entries as they were. */
  lemma {:induction false} RecordAppends(ms: seq<Move>, m: Move)
    requires forall j :: 0 <= j < |ms| ==> ms[j].from != m.from
    ensures Record(ms, m) == ms + [m]
  {
    if ms != [] {
      RecordAppends(ms[1..], m);
      assert ms + [m] == [ms[0]] + (ms[1..] + [m]);
    }
  }

  /** Recording a move keeps at most one move per source, and the move is then
      queued; every other entry was queued before. */
  lemma {:induction false} RecordKeepsUnique(ms: seq<Move>, m: Move)
    requires UniqueSources(ms)
    ensures UniqueSources(Record(ms, m))
    ensures m in Record(ms, m)
    ensures forall x :: x in Record(ms, m) ==> x == m || x in ms
  {
    if exists k :: 0 <= k < |ms| && ms[k].from == m.from {
      var k :| 0 <= k < |ms| && ms[k].from == m.from;
      RecordReplaces(ms, k, m);
      assert ms[k := m][k] == m;
    } else {
      RecordAppends(ms, m);
      assert (ms + [m])[|ms|] == m;
    }
  }

  /** An accepted submission keeps the ledger valid: every queued move stays
      admissible and sources stay unique. */
  lemma RecordKeepsLedger(ms: seq<Move>, cs: seq<Cell>, from: nat, to: nat)
    requires LedgerOk(ms, cs)
    requires from < |cs| && to < |cs| && Admissible(cs, from, to)
    ensures LedgerOk(Record(ms, Move(from, to)), cs)
  {
    RecordKeepsUnique(ms, Move(from, to));
  }
}
