/** How `JobsDispatch` cuts a job range into groups and deals the groups out to queues (Lib/Jobs.h). */
module JobGroups {
  import opened Base
  import opened Ring

  const JOB_QUEUE_SIZE: nat := 256

  /** How many jobs a queue holds: its ring leaves one slot unused. */
  const QUEUE_LIMIT: nat := JOB_QUEUE_SIZE - 1

  // ---------- Cutting a range into groups, on 32-bit words ----------

  function GroupCount(jobCount: nat, groupSize: nat): nat
    requires groupSize > 0
  {
    ((jobCount + groupSize - 1) % U32) / groupSize
  }

  function GroupOffset(g: nat, groupSize: nat): nat {
    (g * groupSize) % U32
  }

  function GroupEnd(g: nat, jobCount: nat, groupSize: nat): nat {
    var end := (GroupOffset(g, groupSize) + groupSize) % U32;
    if end < jobCount then end else jobCount
  }

  ghost predicate InGroup(i: nat, g: nat, jobCount: nat, groupSize: nat) {
    GroupOffset(g, groupSize) <= i < GroupEnd(g, jobCount, groupSize)
  }

  ghost predicate Covered(i: nat, jobCount: nat, groupSize: nat)
    requires groupSize > 0
  {
    exists g :: 0 <= g < GroupCount(jobCount, groupSize) && InGroup(i, g, jobCount, groupSize)
  }

  ghost predicate Words(jobCount: nat, groupSize: nat) {
    0 < jobCount < U32 && 0 < groupSize < U32
  }

  /** Without wrap every group is `[g * groupSize, min((g + 1) * groupSize, jobCount))` and non-empty. */
  lemma GroupBounds(g: nat, jobCount: nat, groupSize: nat)
    requires Words(jobCount, groupSize) && jobCount + groupSize - 1 < U32
    requires g < GroupCount(jobCount, groupSize)
    ensures GroupOffset(g, groupSize) == g * groupSize < jobCount
    ensures GroupEnd(g, jobCount, groupSize) ==
      if g * groupSize + groupSize < jobCount then g * groupSize + groupSize else jobCount
    ensures g + 1 == GroupCount(jobCount, groupSize) <==> GroupEnd(g, jobCount, groupSize) == jobCount
  {
    var sum := jobCount + groupSize - 1;
    DivModUnique(sum, U32, 0, sum);
    GroupProducts(g, jobCount, groupSize, sum / groupSize, sum % groupSize);
    DivModUnique(g * groupSize, U32, 0, g * groupSize);
    DivModUnique(g * groupSize + groupSize, U32, 0, g * groupSize + groupSize);
  }

  lemma GroupProducts(g: nat, jobCount: nat, size: nat, c: nat, r: nat)
    requires jobCount + size - 1 == size * c + r && r < size && g < c
    ensures g * size < jobCount && g * size + size <= jobCount + size - 1
    ensures g + 1 == c <==> jobCount <= g * size + size
  {
    assert size * c == c * size;
    MulLess(size, g, c);
    if g + 1 < c {
      MulLess(size, g + 1, c);
      SuccTimes(g, size);
    }
  }

  lemma QuotientBelow(x: nat, t: nat)
    requires t > 0
    ensures x / t <= x
  {
    assert x == t * (x / t) + x % t;
    MulLess(x / t, 0, t);
  }

  lemma SuccTimes(g: nat, size: nat)
    ensures (g + 1) * size == g * size + size
  {
  }

  /** The groups are disjoint. */
  lemma GroupUnique(i: nat, g: nat, g': nat, jobCount: nat, groupSize: nat)
    requires Words(jobCount, groupSize) && jobCount + groupSize - 1 < U32
    requires g < GroupCount(jobCount, groupSize) && g' < GroupCount(jobCount, groupSize)
    requires InGroup(i, g, jobCount, groupSize) && InGroup(i, g', jobCount, groupSize)
    ensures g == g'
  {
    GroupBounds(g, jobCount, groupSize);
    GroupBounds(g', jobCount, groupSize);
    if g < g' {
      MulLess(groupSize, g, g');
    } else if g' < g {
      MulLess(groupSize, g', g);
    }
  }

  lemma IndexCovered(i: nat, jobCount: nat, groupSize: nat)
    requires Words(jobCount, groupSize) && jobCount + groupSize - 1 < U32 && i < jobCount
    ensures Covered(i, jobCount, groupSize)
  {
    var sum, g := jobCount + groupSize - 1, i / groupSize;
    DivModUnique(sum, U32, 0, sum);
    QuotientOrder(i, jobCount, groupSize, g, i % groupSize, sum / groupSize, sum % groupSize);
    GroupBounds(g, jobCount, groupSize);
    assert InGroup(i, g, jobCount, groupSize);
  }

  lemma QuotientOrder(i: nat, jobCount: nat, size: nat, g: nat, r: nat, c: nat, r': nat)
    requires i < jobCount && i == g * size + r && r < size
    requires jobCount + size - 1 == c * size + r' && r' < size
    ensures g < c
  {
    assert (g + 1) * size == g * size + size;
    if g >= c {
      MulLess(size, c, g + 1);
    }
  }

  /** The groups cover every job index if and only if `jobCount + groupSize - 1` does not wrap; when it
      wraps there is no group at all. */
  lemma GroupsCoverIff(jobCount: nat, groupSize: nat)
    requires Words(jobCount, groupSize)
    ensures jobCount + groupSize - 1 < U32 <==> forall i :: 0 <= i < jobCount ==> Covered(i, jobCount, groupSize)
    ensures jobCount + groupSize - 1 >= U32 ==> GroupCount(jobCount, groupSize) == 0
  {
    var sum := jobCount + groupSize - 1;
    if sum < U32 {
      forall i | 0 <= i < jobCount ensures Covered(i, jobCount, groupSize) {
        IndexCovered(i, jobCount, groupSize);
      }
    } else {
      DivModUnique(sum, U32, 1, sum - U32);
      DivModUnique(sum - U32, groupSize, 0, sum - U32);
      assert !Covered(0, jobCount, groupSize);
    }
  }

  // ---------- Dealing groups to queues ----------

  /** Of `m` consecutive tickets from `n0`, how many fall on queue `q` of `t`. */
  ghost function Share(n0: nat, m: nat, q: nat, t: nat): nat
    requires t > 0
  {
    if m == 0 then 0 else Share(n0, m - 1, q, t) + if (n0 + m - 1) % t == q then 1 else 0
  }

  lemma DivModNext(m: nat, t: nat)
    requires t > 0
    ensures if m % t + 1 == t then (m + 1) / t == m / t + 1 && (m + 1) % t == 0
            else (m + 1) / t == m / t && (m + 1) % t == m % t + 1
  {
    var q, r := m / t, m % t;
    assert m == q * t + r;
    if r + 1 == t {
      DivModUnique(m + 1, t, q + 1, 0);
    } else {
      DivModUnique(m + 1, t, q, r + 1);
    }
  }

  lemma ModAt(n0: nat, m: nat, t: nat)
    requires t > 0
    ensures (n0 + m) % t == At(n0 % t, m % t, t)
  {
    SumOfQuotients(n0, m, t, n0 / t, n0 % t, m / t, m % t);
  }

  lemma SumOfQuotients(n0: nat, m: nat, t: nat, a: nat, r: nat, b: nat, s: nat)
    requires n0 == t * a + r && m == t * b + s && r < t && s < t
    ensures (n0 + m) % t == At(r, s, t)
  {
    Distribute(t, a, b);
    if r + s < t {
      DivModUnique(n0 + m, t, a + b, r + s);
    } else {
      SuccTimes(a + b, t);
      DivModUnique(n0 + m, t, a + b + 1, r + s - t);
    }
  }

  lemma Distribute(t: nat, a: nat, b: nat)
    ensures (a + b) * t == t * a + t * b
  {
  }

  /** A window of `m` consecutive pushes gives every queue `m / t` of them or one more, the extra ones
      going to the queues next in turn. */
  lemma {:induction false} ShareIsEven(n0: nat, m: nat, q: nat, t: nat)
    requires q < t
    ensures Share(n0, m, q, t) == m / t + if Dist(n0 % t, q, t) < m % t then 1 else 0
  {
    if m == 0 {
      DivModUnique(0, t, 0, 0);
    } else {
      ShareIsEven(n0, m - 1, q, t);
      DivModNext(m - 1, t);
      ModAt(n0, m - 1, t);
    }
  }

  /** Queue lengths in a window differ by at most one; `QUEUE_LIMIT * t` pushes give no queue more than
      the limit, and no
      queue gets fewer when there are at least as many pushes. */
  lemma ShareBalanced(n0: nat, m: nat, q: nat, q': nat, t: nat)
    requires q < t && q' < t
    ensures Share(n0, m, q, t) <= Share(n0, m, q', t) + 1
    ensures m <= QUEUE_LIMIT * t ==> Share(n0, m, q, t) <= QUEUE_LIMIT
    ensures m >= QUEUE_LIMIT * t ==> Share(n0, m, q, t) >= QUEUE_LIMIT
  {
    ShareIsEven(n0, m, q, t);
    ShareIsEven(n0, m, q', t);
    QuotientAtMost(m, t);
  }

  lemma QuotientAtMost(m: nat, t: nat)
    requires t > 0
    ensures m <= QUEUE_LIMIT * t ==> m / t < QUEUE_LIMIT || (m / t == QUEUE_LIMIT && m % t == 0)
    ensures m >= QUEUE_LIMIT * t ==> m / t >= QUEUE_LIMIT
  {
    var b, r := m / t, m % t;
    assert m == b * t + r;
    if m <= QUEUE_LIMIT * t && b > QUEUE_LIMIT {
      MulLess(t, QUEUE_LIMIT, b);
    } else if b < QUEUE_LIMIT {
      MulLess(t, b, QUEUE_LIMIT);
    }
  }
}
