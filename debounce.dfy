/** The integrate-and-dump debounce filter, one matrix cell at a time. */
module Debounce {

  /** Consecutive disagreeing updates needed to accept a new switch state. */
  const DEBOUNCE_MS: nat := 5

  /** One cell of the filter: the accepted (debounced) value and the number of
      consecutive updates in which the raw reading disagreed with it. */
  datatype CellState = CellState(debounced: bool, count: nat)

  /** One filter update of a cell with the raw reading `raw`. A reading that agrees
      clears the counter; a disagreeing one counts, and the count that reaches
      DEBOUNCE_MS commits the reading and clears the counter. */
  function Step(s: CellState, raw: bool): (t: CellState)
    ensures raw == s.debounced ==> t == CellState(s.debounced, 0)
    ensures raw != s.debounced && s.count + 1 < DEBOUNCE_MS ==> t == CellState(s.debounced, s.count + 1)
    ensures raw != s.debounced && s.count + 1 == DEBOUNCE_MS ==> t == CellState(raw, 0)
    ensures t.debounced != s.debounced ==> t.debounced == raw && t.count == 0
    ensures s.count < DEBOUNCE_MS ==> t.count < DEBOUNCE_MS
  {
    if raw == s.debounced then CellState(s.debounced, 0)
    else if s.count < DEBOUNCE_MS then
      var n := s.count + 1;
      if n >= DEBOUNCE_MS then CellState(raw, 0) else CellState(s.debounced, n)
    else s
  }

  /** The cell after the updates `raws`, oldest first. */
  function Run(s: CellState, raws: seq<bool>): CellState
    decreases |raws|
  {
    if raws == [] then s else Run(Step(s, raws[0]), raws[1..])
  }

  /** `n` identical readings `v`. */
  function Repeat(v: bool, n: nat): (vs: seq<bool>)
    ensures |vs| == n && forall i :: 0 <= i < n ==> vs[i] == v
  {
    seq(n, _ => v)
  }

  /** How many of the readings `raws` differ from `d`, in whatever positions. */
  function Differing(raws: seq<bool>, d: bool): (n: nat)
    ensures n <= |raws|
    ensures n == 0 <==> forall j :: 0 <= j < |raws| ==> raws[j] == d
    decreases |raws|
  {
    if raws == [] then 0
    else (if raws[0] != d then 1 else 0) + Differing(raws[1..], d)
  }

  /** The `n` readings of `raws` from position `i` on all differ from `d`. */
  ghost predicate Disagree(raws: seq<bool>, d: bool, i: nat, n: nat) {
    i + n <= |raws| && forall j :: i <= j < i + n ==> raws[j] != d
  }

  /** Every counter stays below DEBOUNCE_MS, whatever the readings: the guard
      `count < DEBOUNCE_MS` in front of the increment always holds. */
  lemma {:induction false} CountStaysBounded(s: CellState, raws: seq<bool>)
    requires s.count < DEBOUNCE_MS
    ensures Run(s, raws).count < DEBOUNCE_MS
    decreases |raws|
  {
    if raws != [] {
      CountStaysBounded(Step(s, raws[0]), raws[1..]);
    }
  }

  /** Chatter is rejected: fewer disagreeing updates than are missing to the threshold,
      in any pattern, leave the debounced value where it was. */
  lemma {:induction false} ShortBurstRejected(s: CellState, raws: seq<bool>)
    requires s.count + Differing(raws, s.debounced) < DEBOUNCE_MS
    ensures Run(s, raws).debounced == s.debounced
    decreases |raws|
  {
    if raws != [] {
      ShortBurstRejected(Step(s, raws[0]), raws[1..]);
    }
  }

  /** The debounced value only ever changes after a sustained disagreement: either the
      first readings complete the count already in progress, or somewhere DEBOUNCE_MS
      consecutive readings all differ from the old value. */
  lemma {:induction false} FlipNeedsSustainedReading(s: CellState, raws: seq<bool>)
    requires s.count < DEBOUNCE_MS
    ensures Run(s, raws).debounced != s.debounced ==>
      Disagree(raws, s.debounced, 0, DEBOUNCE_MS - s.count) ||
      exists i: nat :: Disagree(raws, s.debounced, i, DEBOUNCE_MS)
    decreases |raws|
  {
    if raws == [] {
      return;
    }
    var d := s.debounced;
    var t := Step(s, raws[0]);
    var rest := raws[1..];
    assert Run(s, raws) == Run(t, rest);
    if Run(s, raws).debounced == d {
      return;
    }
    if t.debounced != d {
      // The first reading committed: it completed the count in progress.
      assert raws[0] == !d && s.count + 1 == DEBOUNCE_MS;
      assert Disagree(raws, d, 0, DEBOUNCE_MS - s.count);
      return;
    }
    FlipNeedsSustainedReading(t, rest);
    if raws[0] == d {
      // The counter restarted from zero on `rest`.
      assert t.count == 0;
      if Disagree(rest, d, 0, DEBOUNCE_MS) {
        assert Disagree(raws, d, 1, DEBOUNCE_MS);
      } else {
        var i: nat :| Disagree(rest, d, i, DEBOUNCE_MS);
        assert Disagree(raws, d, i + 1, DEBOUNCE_MS);
      }
    } else {
      assert t.count == s.count + 1;
      if Disagree(rest, d, 0, DEBOUNCE_MS - t.count) {
        assert Disagree(raws, d, 0, DEBOUNCE_MS - s.count);
      } else {
        var i: nat :| Disagree(rest, d, i, DEBOUNCE_MS);
        assert Disagree(raws, d, i + 1, DEBOUNCE_MS);
      }
    }
  }

  /** While the raw reading keeps disagreeing, the count climbs one per update and the
      debounced value holds ... */
  lemma {:induction false} DisagreementCounts(d: bool, c: nat, n: nat)
    requires c + n < DEBOUNCE_MS
    ensures Run(CellState(d, c), Repeat(!d, n)) == CellState(d, c + n)
    decreases n
  {
    if n > 0 {
      assert Repeat(!d, n)[1..] == Repeat(!d, n - 1);
      DisagreementCounts(d, c + 1, n - 1);
    }
  }

  /** ... and the update that brings the count to DEBOUNCE_MS commits: from a settled
      cell, exactly DEBOUNCE_MS disagreeing updates flip it, on the last of them, and
      leave the counter at zero. */
  lemma {:induction false} CommitOnThreshold(d: bool, c: nat)
    requires c < DEBOUNCE_MS
    ensures Run(CellState(d, c), Repeat(!d, DEBOUNCE_MS - c)) == CellState(!d, 0)
    decreases DEBOUNCE_MS - c
  {
    var raws := Repeat(!d, DEBOUNCE_MS - c);
    assert raws[1..] == Repeat(!d, DEBOUNCE_MS - c - 1);
    if c + 1 < DEBOUNCE_MS {
      CommitOnThreshold(d, c + 1);
    }
  }

  /** A committed value is kept while the raw reading agrees with it. */
  lemma {:induction false} AgreementKeeps(v: bool, c: nat, n: nat)
    requires n > 0
    ensures Run(CellState(v, c), Repeat(v, n)) == CellState(v, 0)
    decreases n
  {
    assert Repeat(v, n)[1..] == Repeat(v, n - 1);
    if n > 1 {
      AgreementKeeps(v, 0, n - 1);
    }
  }
}
