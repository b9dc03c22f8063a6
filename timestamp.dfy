/** Hybrid logical clock timestamps: a wall-clock reading in nanoseconds
    and a logical tie-breaker, ordered wall time first. */
module Timestamps {
  import opened Base

  datatype Timestamp = Timestamp(WallTime: int64, Logical: int32)

  /** Reference definition of the order: the position of a timestamp on one
      integer line, wall time as the high 64 bits and the logical counter,
      shifted to be non-negative, as the low 32 bits. */
  function Rank(t: Timestamp): (r: int)
    ensures 0 <= r - t.WallTime * 0x1_0000_0000 < 0x1_0000_0000
  {
    t.WallTime * 0x1_0000_0000 + (t.Logical - MinInt32)
  }

  /** Comparing wall time first and the logical counter second is comparing
      ranks; equal fields are equal ranks. */
  lemma RankOrdersFields(a: Timestamp, b: Timestamp)
    ensures (a.WallTime < b.WallTime || (a.WallTime == b.WallTime && a.Logical < b.Logical))
        <==> Rank(a) < Rank(b)
    ensures (a.WallTime == b.WallTime && a.Logical == b.Logical) <==> Rank(a) == Rank(b)
  {
    if a.WallTime < b.WallTime {
      assert Rank(a) < (a.WallTime + 1) * 0x1_0000_0000 <= Rank(b);
    } else if a.WallTime > b.WallTime {
      assert Rank(b) < (b.WallTime + 1) * 0x1_0000_0000 <= Rank(a);
    }
  }

  /** Timestamp.Less: wall time first, then the logical counter; the order
      of ranks. */
  function Less(a: Timestamp, b: Timestamp): (r: bool)
    ensures r <==> Rank(a) < Rank(b)
  {
    RankOrdersFields(a, b);
    a.WallTime < b.WallTime || (a.WallTime == b.WallTime && a.Logical < b.Logical)
  }

  /** Timestamp.Equal: equal ranks, which is equality of timestamps. */
  function Equal(a: Timestamp, b: Timestamp): (r: bool)
    ensures r <==> Rank(a) == Rank(b)
    ensures r <==> a == b
  {
    RankOrdersFields(a, b);
    a.WallTime == b.WallTime && a.Logical == b.Logical
  }

  /** Exactly one of a < b, a == b, b < a; and Less is transitive. */
  lemma LessIsStrictTotalOrder(a: Timestamp, b: Timestamp, c: Timestamp)
    ensures !Less(a, a)
    ensures Less(a, b) || Equal(a, b) || Less(b, a)
    ensures !(Less(a, b) && Equal(a, b)) && !(Less(a, b) && Less(b, a))
    ensures Less(a, b) && Less(b, c) ==> Less(a, c)
  {
  }

  /** The zero timestamp lies below every timestamp with a non-negative
      wall time and logical counter other than itself. */
  lemma ZeroIsLeastNonNegative(t: Timestamp)
    requires t.WallTime >= 0 && t.Logical >= 0 && t != Timestamp(0, 0)
    ensures Less(Timestamp(0, 0), t)
  {
  }

  /** The cases of the Less and Equal tests. */
  lemma TimestampCases()
    ensures !Less(Timestamp(0, 0), Timestamp(0, 0)) && Equal(Timestamp(0, 0), Timestamp(0, 0))
    ensures Less(Timestamp(0, 0), Timestamp(1, 0)) && !Equal(Timestamp(0, 0), Timestamp(1, 0))
    ensures Less(Timestamp(1, 0), Timestamp(1, 1)) && !Equal(Timestamp(1, 0), Timestamp(1, 1))
  {
  }
}
