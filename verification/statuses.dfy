/** Feedback classes shared by the board tiles and the on-screen keys. */
module Statuses {

  /** The class a scored tile or a key receives: 'absent', 'present' or 'correct'. */
  datatype Status = Absent | Present | Correct

  /** An optional value: an empty tile, an unscored tile, a key with no colour yet. */
  datatype Option<+T> = None | Some(value: T)

  /** The upgrade order of key colours: absent < present < correct. */
  function Rank(s: Status): nat {
    match s
    case Absent => 0
    case Present => 1
    case Correct => 2
  }

  /** Rank of an optional status; "no status yet" ranks below absent. */
  function RankOpt(s: Option<Status>): int {
    match s
    case None => -1
    case Some(v) => Rank(v)
  }

  /** The higher of two statuses: the least upper bound under Rank. */
  function Max(a: Status, b: Status): (r: Status)
    ensures r == a || r == b
    ensures Rank(r) >= Rank(a) && Rank(r) >= Rank(b)
  {
    if Rank(a) >= Rank(b) then a else b
  }

  /** Max lifted to optional statuses, with None as the bottom element. */
  function MaxOpt(a: Option<Status>, b: Option<Status>): (r: Option<Status>)
    ensures r == a || r == b
    ensures RankOpt(r) >= RankOpt(a) && RankOpt(r) >= RankOpt(b)
  {
    match (a, b)
    case (None, _) => b
    case (_, None) => a
    case (Some(x), Some(y)) => Some(Max(x, y))
  }

  /** MaxOpt is associative and commutative, so the order of merges does not matter. */
  lemma MaxOptLaws(a: Option<Status>, b: Option<Status>, c: Option<Status>)
    ensures MaxOpt(a, b) == MaxOpt(b, a)
    ensures MaxOpt(MaxOpt(a, b), c) == MaxOpt(a, MaxOpt(b, c))
    ensures MaxOpt(a, None) == a && MaxOpt(a, a) == a
  {
  }
}
