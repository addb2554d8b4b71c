/** Frame numbers, sample positions and timestamps (video.c frame_to_pts,
    audio.c pts_to_sample_pos_osr and sample_pos_osr_to_pts). A rate is given
    as ticks per unit, num/den, and start is the stream's start time. */
module Timestamps {
  import opened Rescale

  /** The timestamp of unit k: k * num / den rounded to nearest, from start. */
  function ToPts(k: int, num: int, den: int, start: int): (pts: int)
    requires num > 0 && den > 0
    ensures -den <= 2 * ((pts - start) * den - k * num) <= den
  {
    Near(k * num, den) + start
  }

  /** The unit a timestamp falls on: ticks * den / num rounded to nearest. */
  function FromPts(pts: int, num: int, den: int, start: int): (k: int)
    requires num > 0 && den > 0
    ensures -num <= 2 * (k * num - (pts - start) * den) <= num
  {
    Near((pts - start) * den, num)
  }

  /** How many grabs video_read and seek allow themselves between two stamps. */
  function SkipFrames(from: int, to: int, num: int, den: int): (skip: int)
    requires num > 0 && den > 0
    ensures (skip - 1) * num < (to - from) * den <= skip * num
  {
    Up((to - from) * den, num)
  }

  /** With at least one tick per frame, stamps are strictly increasing and the
      rounded-up skip count between two of them never stops short. */
  lemma SkipReaches(j: nat, n: nat, num: int, den: int, start: int)
    requires num >= den > 0 && j <= n
    ensures ToPts(n, num, den, start) - ToPts(j, num, den, start) >= n - j
    ensures SkipFrames(ToPts(j, num, den, start), ToPts(n, num, den, start), num, den) >= n - j
  {
    if j < n {
      var ticks := Near(n * num, den) - Near(j * num, den);
      TicksBetween(j, n, num, den);
      TicksAtLeast(ticks, n - j - 1, num, den);
      SkipAtLeast(ticks, n - j - 1, num, den, Up(ticks * den, num));
    } else {
      SkipNothing(num, Up(0, num));
    }
  }

  lemma TicksBetween(j: nat, n: nat, num: int, den: int)
    requires num >= den > 0 && j < n
    ensures (Near(n * num, den) - Near(j * num, den)) * den > (n - j - 1) * num
  {
    Scale(0, j, num);
    Scale(0, n, num);
    NearGap(j * num, n * num, den, Near(j * num, den), Near(n * num, den));
    Distribute(j, n, num);
    Distribute(1, n - j, num);
  }

  /** Two roundings lose less than one divisor between them. */
  lemma NearGap(x: int, y: int, den: int, m: int, n: int)
    requires den > 0 && x >= 0 && y >= 0 && IsNear(x, den, m) && IsNear(y, den, n)
    ensures (n - m) * den > y - x - den
  {
    Distribute(m, n, den);
  }

  lemma TicksAtLeast(ticks: int, m: nat, num: int, den: int)
    requires num >= den > 0 && ticks * den > m * num
    ensures ticks >= m + 1
  {
    Scale(den, num, m);
    if ticks <= m { Scale(ticks, m, den); }
  }

  lemma SkipAtLeast(ticks: int, m: nat, num: int, den: int, skip: int)
    requires num > 0 && ticks * den > m * num && ticks * den <= skip * num
    ensures skip >= m + 1
  {
    if skip <= m { Scale(skip, m, num); }
  }

  lemma SkipNothing(num: int, skip: int)
    requires num > 0 && 0 <= skip * num
    ensures skip >= 0
  {
    if skip < 0 { Apart(0, skip, num); }
  }

  // ------------------------------------------------ there and back again

  /** A unit sent to its timestamp and back is off by at most
      (units per tick + 1) / 2, whatever the start time. */
  lemma RoundTripError(k: int, num: int, den: int, start: int)
    requires num > 0 && den > 0
    ensures var back := FromPts(ToPts(k, num, den, start), num, den, start);
            -(den + num) <= 2 * (back * num - k * num) <= den + num
  {
    var t := Near(k * num, den);
    var back := Near(t * den, num);
    assert ToPts(k, num, den, start) - start == t;
    assert -den <= 2 * (t * den) - 2 * (k * num) <= den;
    assert -num <= 2 * (back * num) - 2 * (t * den) <= num;
  }

  /** When a tick is no longer than a unit the round trip is the identity. */
  lemma RoundTripExact(k: int, num: int, den: int, start: int)
    requires num >= den > 0
    ensures FromPts(ToPts(k, num, den, start), num, den, start) == k
  {
    var t := Near(k * num, den);
    var back := Near(t * den, num);
    assert ToPts(k, num, den, start) - start == t;
    if num == den {
      Exact(k, num, t);
      Exact(t, num, back);
    } else {
      assert -den <= 2 * (t * den) - 2 * (k * num) <= den;
      assert -num <= 2 * (back * num) - 2 * (t * den) <= num;
      if back > k { Apart(back, k, num); }
      if back < k { Apart(k, back, num); }
    }
  }

  /** Rounding an exact multiple. */
  lemma Exact(k: int, den: int, r: int)
    requires den > 0 && IsNear(k * den, den, r)
    ensures r == k
  {
    if r > k { Apart(r, k, den); }
    if r < k { Apart(k, r, den); }
  }

  /** Unit k and the next one have different stamps. */
  ghost predicate Rises(k: nat, num: int, den: int, start: int)
    requires num > 0 && den > 0
  {
    ToPts(k, num, den, start) < ToPts(k + 1, num, den, start)
  }

  /** If no two neighbouring units share a stamp, k units span k ticks. */
  lemma {:induction false} RisingStampsSpread(k: nat, num: int, den: int, start: int)
    requires num > 0 && den > 0 && forall i: nat :: Rises(i, num, den, start)
    ensures ToPts(k, num, den, start) >= ToPts(0, num, den, start) + k
  {
    if k > 0 {
      RisingStampsSpread(k - 1, num, den, start);
      assert Rises(k - 1, num, den, start);
    }
  }

  /** All units have stamps of their own exactly when a unit lasts at least one
      tick; shorter frames make video_read confuse two of them. */
  lemma DistinctStampsIff(num: int, den: int, start: int)
    requires num > 0 && den > 0
    ensures num >= den <==> forall k: nat :: Rises(k, num, den, start)
  {
    if num >= den {
      forall k: nat ensures Rises(k, num, den, start) { SkipReaches(k, k + 1, num, den, start); }
    } else if forall k: nat :: Rises(k, num, den, start) {
      RisingStampsSpread(den, num, den, start);
      Exact(num, den, Near(den * num, den));
      Exact(0, den, Near(0 * num, den));
      assert false;
    }
  }

  /** The round trip is the identity on all units exactly when a tick is no
      longer than a unit. */
  lemma RoundTripIdentityIff(num: int, den: int, start: int)
    requires num > 0 && den > 0
    ensures num >= den <==>
              forall k: nat :: FromPts(ToPts(k, num, den, start), num, den, start) == k
  {
    if num >= den {
      forall k: nat ensures FromPts(ToPts(k, num, den, start), num, den, start) == k {
        RoundTripExact(k, num, den, start);
      }
    } else if forall k: nat :: FromPts(ToPts(k, num, den, start), num, den, start) == k {
      forall k: nat ensures Rises(k, num, den, start) { TellApart(k, num, den, start); }
      DistinctStampsIff(num, den, start);
    }
  }

  lemma TellApart(k: nat, num: int, den: int, start: int)
    requires num > 0 && den > 0
    requires forall i: nat :: FromPts(ToPts(i, num, den, start), num, den, start) == i
    ensures Rises(k, num, den, start)
  {
    var s, t := ToPts(k, num, den, start), ToPts(k + 1, num, den, start);
    assert FromPts(s, num, den, start) == k;
    assert FromPts(t, num, den, start) == k + 1;
    Scale(k, k + 1, num);
    NearMonotone(k * num, (k + 1) * num, den);
  }
}
