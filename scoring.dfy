/** Score, level and line count, and how one clear event updates them. */
module Scoring {

  /** The session counters `score`, `level` and `lines_cleared`. */
  datatype Stats = Stats(score: int, level: int, lines: int)

  /** The counters at the start of a game. */
  const Initial: Stats := Stats(0, 1, 0)

  /** The level is one more than the number of completed groups of ten
      lines, and score and line count are never negative. */
  predicate Consistent(st: Stats)
  {
    st.lines >= 0 && st.score >= 0 && st.level == 1 + st.lines / 10
  }

  /** Points for clearing `cleared` rows at once at the given level: the
      switch with cases 1, 2, 3 and a default. */
  function Points(cleared: int, level: int): int
  {
    if cleared == 1 then 40 * level
    else if cleared == 2 then 100 * level
    else if cleared == 3 then 300 * level
    else 1200 * level
  }

  /** The counters after a clear event that removed `cleared` rows; a call
      that removed none leaves them alone. */
  function Award(st: Stats, cleared: nat): Stats
  {
    if cleared == 0 then st
    else
      var lines := st.lines + cleared;
      Stats(st.score + Points(cleared, st.level), 1 + lines / 10, lines)
  }

  /** The scoring table, applied with the level held before the update. */
  lemma AwardTable(st: Stats, cleared: nat)
    ensures cleared == 0 ==> Award(st, cleared) == st
    ensures cleared == 1 ==> Award(st, cleared).score == st.score + 40 * st.level
    ensures cleared == 2 ==> Award(st, cleared).score == st.score + 100 * st.level
    ensures cleared == 3 ==> Award(st, cleared).score == st.score + 300 * st.level
    ensures cleared >= 4 ==> Award(st, cleared).score == st.score + 1200 * st.level
    ensures cleared > 0 ==> Award(st, cleared).lines == st.lines + cleared
    ensures cleared > 0 ==> Award(st, cleared).level == 1 + Award(st, cleared).lines / 10
  {
  }

  /** A clear event keeps the counters consistent and never makes any of
      them smaller. */
  lemma AwardMonotone(st: Stats, cleared: nat)
    requires Consistent(st)
    ensures Consistent(Award(st, cleared))
    ensures Award(st, cleared).score >= st.score
    ensures Award(st, cleared).level >= st.level
    ensures Award(st, cleared).lines >= st.lines
  {
    if cleared > 0 {
      var lines := st.lines + cleared;
      assert Points(cleared, st.level) >= 40;
      assert st.lines / 10 <= lines / 10;
    }
  }

  /** The counters after n single-row clears. */
  function Singles(st: Stats, n: nat): Stats
  {
    if n == 0 then st else Award(Singles(st, n - 1), 1)
  }

  /** Single-row clears that stay within one group of ten lines all score
      40 points times the same level; the level goes up by one exactly
      when the group is completed. */
  lemma {:induction false} SinglesWithinLevel(st: Stats, k: nat)
    requires Consistent(st) && st.lines % 10 + k <= 10
    ensures Singles(st, k) == Stats(st.score + 40 * st.level * k,
      if st.lines % 10 + k == 10 then st.level + 1 else st.level, st.lines + k)
  {
    if k > 0 {
      SinglesWithinLevel(st, k - 1);
      var q, m := st.lines / 10, st.lines % 10;
      assert st.lines + k == 10 * q + (m + k);
      assert (st.lines + k) / 10 == if m + k == 10 then q + 1 else q;
      assert 40 * st.level * (k - 1) + 40 * st.level == 40 * st.level * k;
    }
  }

  /** From a fresh game the first ten singles all score 40 points at level
      1; the level changes only once the tenth line is in. */
  lemma FirstTenSingles(n: nat)
    requires n <= 10
    ensures Singles(Initial, n) == Stats(40 * n, 1 + n / 10, n)
  {
    SinglesWithinLevel(Initial, n);
  }
}
