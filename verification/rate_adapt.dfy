/** The two rate controllers the MAC can ask for the next data rate after
    each unicast attempt (RateAdapt.py): Minstrel, which keeps per-rate
    delivery statistics and spends a fixed share of packets on sampling,
    and AARF, which climbs one rate after a run of successes and falls back
    after failures. */
module RateAdapt {

  function Min(a: int, b: int): int { if a <= b then a else b }
  function Max(a: int, b: int): int { if a >= b then a else b }

  // ---------------------------------------------------------------------
  // Minstrel
  // ---------------------------------------------------------------------

  /** Empty sample-table slot. */
  const EmptySlot := 0xff

  /** Rows of the sample table. */
  const SampleRows := 10

  /** The packet counter's limit: past it the code raises TypeError. */
  const MaxTotalPackets := 60000

  /** The default throughput table (Mbps of rate indices 0..7) and share of
      sampled packets (per cent) a controller gets when the caller names
      neither. */
  const DefaultRateTable: seq<nat> := [6, 9, 12, 18, 24, 36, 48, 54]
  const DefaultSampleRatio := 10

  /** AARF's default success run before a rate increase. */
  const DefaultAarfN := 8

  /** 0, 1, ..., n - 1. */
  function Iota(n: nat): (r: seq<int>)
    ensures |r| == n
    ensures forall i :: 0 <= i < n ==> r[i] == i
  {
    if n == 0 then [] else Iota(n - 1) + [n - 1]
  }

  /** A sample-table row: every rate index below n exactly once. */
  ghost predicate IsSampleRow(row: seq<int>, n: nat)
  {
    |row| == n && multiset(row) == multiset(Iota(n))
  }

  /** Every entry of a sample-table row is a rate index, and every rate index
      is in the row. */
  lemma {:induction false} SampleRowEntries(row: seq<int>, n: nat)
    requires IsSampleRow(row, n)
    ensures forall k :: 0 <= k < n ==> 0 <= row[k] < n
    ensures forall v :: 0 <= v < n ==> v in row
  {
    forall k | 0 <= k < n
      ensures 0 <= row[k] < n
    {
      assert row[k] in multiset(row);
      assert row[k] in multiset(Iota(n));
      assert row[k] in Iota(n);
    }
    forall v | 0 <= v < n
      ensures v in row
    {
      assert Iota(n)[v] == v;
      assert v in multiset(Iota(n));
      assert v in multiset(row);
    }
  }

  /** One row of the sample table, filled in place as the constructor does:
      rate i goes to the slot `rnd` places after slot i (rnd drawn at random
      from [0, n)), or to the next empty slot after it, wrapping round.  The
      draws are left open: the row is a permutation whatever they are. */
  method FillSampleRow(n: nat) returns (row: seq<int>)
    requires n <= 255
    ensures IsSampleRow(row, n)
  {
    var a := new int[n](_ => EmptySlot);
    EmptyRow(a[..], n);
    var i := 0;
    while i < n
      invariant 0 <= i <= n && a.Length == n
      invariant PartRow(a[..], i, n)
    {
      var rnd :| 0 <= rnd < n;
      PlaceRate(a, i, (i + rnd) % n);
      i := i + 1;
    }
    row := a[..];
    FullRow(row, n);
  }

  /** A row during the fill: rates 0 .. i - 1 once each, the rest empty. */
  ghost predicate PartRow(s: seq<int>, i: nat, n: nat)
    requires i <= n
  {
    multiset(s) == multiset(Iota(i)) + multiset{}[EmptySlot := n - i]
  }

  lemma EmptyRow(s: seq<int>, n: nat)
    requires s == seq(n, _ => EmptySlot)
    ensures PartRow(s, 0, n)
  {
    MultisetOfEmptySlots(n);
    assert multiset(Iota(0)) == multiset{};
  }

  lemma FullRow(s: seq<int>, n: nat)
    requires |s| == n && PartRow(s, n, n)
    ensures IsSampleRow(s, n)
  {
    assert multiset{}[EmptySlot := 0] == multiset{};
  }

  /** One pass of the fill loop: rate i goes to the first empty slot from
      `start` on. */
  method PlaceRate(a: array<int>, i: nat, start: nat)
    requires i < a.Length <= 255 && start < a.Length
    requires PartRow(a[..], i, a.Length)
    modifies a
    ensures PartRow(a[..], i + 1, a.Length)
  {
    assert EmptySlot in multiset(a[..]);
    var k := FindEmptySlot(a, start);
    ghost var before := a[..];
    a[k] := i;
    assert a[..] == before[k := i];
    PlaceInRow(before, k, i, a.Length);
  }

  /** The probe of the fill loop: from `start`, the first empty slot, going
      round the row. */
  method FindEmptySlot(a: array<int>, start: nat) returns (k: nat)
    requires start < a.Length && EmptySlot in multiset(a[..])
    ensures k < a.Length && a[k] == EmptySlot
  {
    assert EmptySlot in a[..];
    ghost var free :| 0 <= free < a.Length && a[free] == EmptySlot;
    k := start;
    while a[k] != EmptySlot
      invariant 0 <= k < a.Length
      decreases if k <= free then free - k else free + a.Length - k
    {
      k := if k + 1 == a.Length then 0 else k + 1;
    }
  }

  /** Writing rate i into an empty slot turns one empty slot into i. */
  lemma PlaceInRow(before: seq<int>, k: nat, i: nat, n: nat)
    requires k < |before| && before[k] == EmptySlot && i < n <= 255
    requires multiset(before) == multiset(Iota(i)) + multiset{}[EmptySlot := n - i]
    ensures multiset(before[k := i]) == multiset(Iota(i + 1)) + multiset{}[EmptySlot := n - (i + 1)]
  {
    IotaStep(i);
    MultisetUpdate(before, k, i);
    EmptySlotsStep(n - (i + 1));
    var placed := multiset(Iota(i));
    var rest := multiset{}[EmptySlot := n - (i + 1)];
    AddThenRemove(placed + rest, EmptySlot);
    SwapLast(placed, rest, multiset{i});
  }

  lemma AddThenRemove(m: multiset<int>, e: int)
    ensures m + multiset{e} - multiset{e} == m
  {
  }

  lemma SwapLast(a: multiset<int>, b: multiset<int>, c: multiset<int>)
    ensures a + b + c == a + c + b
  {
  }

  lemma EmptySlotsStep(m: nat)
    ensures multiset{}[EmptySlot := m + 1] == multiset{}[EmptySlot := m] + multiset{EmptySlot}
  {
  }

  lemma MultisetUpdate(s: seq<int>, k: nat, v: int)
    requires k < |s|
    ensures multiset(s[k := v]) == multiset(s) - multiset{s[k]} + multiset{v}
  {
  }

  /** Iota grows by its length, and never holds the empty-slot marker. */
  lemma IotaStep(i: nat)
    requires i < 255
    ensures multiset(Iota(i + 1)) == multiset(Iota(i)) + multiset{i}
    ensures EmptySlot !in multiset(Iota(i))
  {
    assert Iota(i + 1) == Iota(i) + [i];
    assert forall j | 0 <= j < |Iota(i)| :: Iota(i)[j] < EmptySlot;
    assert EmptySlot !in Iota(i);
  }

  lemma {:induction false} MultisetOfEmptySlots(n: nat)
    ensures multiset(seq(n, _ => EmptySlot)) == multiset{}[EmptySlot := n]
  {
    if n > 0 {
      assert seq(n, _ => EmptySlot) == seq(n - 1, _ => EmptySlot) + [EmptySlot];
      MultisetOfEmptySlots(n - 1);
    }
  }

  lemma MulMonotone(a: nat, b: nat, c: nat)
    requires a <= b
    ensures a * c <= b * c
  {
  }

  /** A success count of at most the attempts is at most 100 percent. */
  lemma PercentAtMost100(succ: nat, att: nat)
    requires 0 < att && succ <= att
    ensures succ * 100 / att <= 100
  {
    var q := succ * 100 / att;
    assert q * att <= succ * 100;
    MulMonotone(succ, att, 100);
    MulCancel(q, 100, att);
  }

  lemma MulCancel(a: nat, b: nat, c: nat)
    requires c > 0 && a * c <= b * c
    ensures a <= b
  {
  }

  /** The success percentage of a window, rounded down. */
  function Percent(succ: nat, att: nat): (p: nat)
    requires 0 < att && succ <= att
    ensures p <= 100
    ensures p * att <= succ * 100 < p * att + att
  {
    PercentAtMost100(succ, att);
    succ * 100 / att
  }

  /** The throughput score of a rate: nothing below 10 percent success,
      otherwise the percentage times the rate's Mbps. */
  function Throughput(prob: nat, mbps: nat): (t: nat)
    requires prob <= 100
    ensures t == 0 || t == prob * mbps
    ensures t == 0 <==> prob < 10 || mbps == 0
    ensures t <= 100 * mbps
  {
    MulMonotone(prob, 100, mbps);
    if prob < 10 then 0 else prob * mbps
  }

  /** The score never falls when the success percentage or the rate rises,
      so a rate that is both faster and at least as reliable as another
      scores at least as high. */
  lemma ThroughputMonotone(p1: nat, p2: nat, m1: nat, m2: nat)
    requires p1 <= p2 <= 100 && m1 <= m2
    ensures Throughput(p1, m1) <= Throughput(p2, m2)
  {
    if p1 >= 10 {
      MulMonotone(p1, p2, m1);
      MulMonotone(m1, m2, p2);
    }
  }

  /** The history success percentage as the code blends it: 75 percent of
      the old history plus 75 percent of the window just closed. */
  function BlendedProb(hisSuccess: nat, hisAttempts: nat, curSuccess: nat, curAttempts: nat): nat
    requires hisAttempts > 0 && curAttempts > 0
  {
    (hisSuccess * 75 * curAttempts + curSuccess * 75 * hisAttempts) / (hisAttempts * curAttempts)
  }

  /** One line of the per-rate statistics table. */
  datatype RateStat = RateStat(rate: nat, hisSuccess: nat, hisAttempts: nat, hisProb: nat,
                               curSuccess: nat, curAttempts: nat, curProb: nat, tp: nat)

  /** The line invariant: no more successes than attempts, in the current
      window and in the history, and a success percentage in [0, 100]. */
  predicate StatOk(s: RateStat)
  {
    s.curSuccess <= s.curAttempts && s.hisSuccess <= s.hisAttempts && s.curProb <= 100
  }

  /** The statistics line of the rate just used, after one attempt: the
      attempt (and the success) is counted, the success percentage and the
      throughput are recomputed, and when the window reaches `maxRetry`
      attempts it is folded into the history (the history success count is
      first cleared if it passed 60000).  Percentages are exact rational
      values rounded down. */
  function UpdateRow(s: RateStat, success: bool, maxRetry: nat, mbps: nat): (r: RateStat)
    requires StatOk(s)
    ensures StatOk(r) && r.rate == s.rate
    ensures r.curProb == Percent(s.curSuccess + (if success then 1 else 0), s.curAttempts + 1)
    ensures r.tp == Throughput(r.curProb, mbps)
    ensures r.curAttempts + r.hisAttempts == s.curAttempts + s.hisAttempts + 1
    ensures s.hisSuccess <= 60000 || s.curAttempts + 1 != maxRetry ==>
              r.curSuccess + r.hisSuccess == s.curSuccess + s.hisSuccess + (if success then 1 else 0)
    ensures s.curAttempts + 1 == maxRetry <==> r.curAttempts == 0
    ensures s.curAttempts + 1 != maxRetry ==> r.hisAttempts == s.hisAttempts && r.hisProb == s.hisProb
  {
    var att := s.curAttempts + 1;
    var succ := s.curSuccess + (if success then 1 else 0);
    var prob := Percent(succ, att);
    var tp := Throughput(prob, mbps);
    if att == maxRetry then
      var hisProb := if s.hisAttempts != 0 then BlendedProb(s.hisSuccess, s.hisAttempts, succ, att) else s.hisProb;
      var hisSuccess := if s.hisSuccess > 60000 then 0 else s.hisSuccess;
      RateStat(s.rate, hisSuccess + succ, s.hisAttempts + att, hisProb, 0, 0, prob, tp)
    else
      RateStat(s.rate, s.hisSuccess, s.hisAttempts, s.hisProb, succ, att, prob, tp)
  }

  /** r is the lowest index whose throughput is the largest. */
  predicate IsBestRate(stats: seq<RateStat>, r: nat)
  {
    r < |stats|
    && (forall i :: 0 <= i < |stats| ==> stats[i].tp <= stats[r].tp)
    && (forall i :: 0 <= i < r ==> stats[i].tp < stats[r].tp)
  }

  /** The cursor (row, column) after one sample was taken from the table. */
  function NextSampleCursor(row: nat, col: nat, n: nat): (c: (nat, nat))
    requires row < SampleRows && col < n
    ensures c.0 < SampleRows && c.1 < n
    ensures c.0 * n + c.1 == (row * n + col + 1) % (SampleRows * n)
  {
    CursorOffset(row, col, n);
    if col + 1 == n then
      (if row + 1 == SampleRows then 0 else row + 1, 0)
    else
      (row, col + 1)
  }

  lemma CursorOffset(row: nat, col: nat, n: nat)
    requires row < SampleRows && col < n
    ensures var x := row * n + col + 1;
            x <= SampleRows * n && x % (SampleRows * n) == (if x == SampleRows * n then 0 else x)
  {
    var x := row * n + col + 1;
    var m := SampleRows * n;
    MulMonotone(row + 1, SampleRows, n);
    assert (row + 1) * n == row * n + n;
    if x < m {
      ModSmall(x, m);
    } else {
      ModSelf(m);
    }
  }

  lemma ModSelf(m: nat)
    requires m > 0
    ensures m % m == 0
  {
  }

  lemma ModSmall(x: nat, m: nat)
    requires x < m
    ensures x % m == x
  {
  }

  class MinstrelController {
    const rateTable: seq<nat>
    const maxRetry: nat
    const sampleRatio: nat
    /** The rate whose statistics the last update changed. */
    var idx: nat
    var sampleTable: seq<seq<int>>
    var stats: seq<RateStat>
    /** sample_statistic: packets seen, packets sampled, cursor row and column. */
    var total: nat
    var sampled: nat
    var sampleRow: nat
    var sampleCol: nat

    function N(): nat
      reads this
    {
      |rateTable|
    }

    ghost predicate Valid()
      reads this
    {
      1 <= N() <= 255 && sampleRatio <= 100 && idx < N()
      && |sampleTable| == SampleRows && (forall r :: 0 <= r < SampleRows ==> IsSampleRow(sampleTable[r], N()))
      && sampleRow < SampleRows && sampleCol < N()
      && |stats| == N()
      && (forall i :: 0 <= i < N() ==> stats[i].rate == i && StatOk(stats[i]))
      && (maxRetry >= 1 ==> forall i :: 0 <= i < N() ==> stats[i].curAttempts < maxRetry)
      && total <= MaxTotalPackets && sampled == total * sampleRatio / 100
    }

    /** The controller for the given rate table (Mbps per rate index); the
        ten sample-table rows are drawn at random. */
    constructor(encodingInit: nat, maxRetryCounts: nat, ratio: nat, table: seq<nat>)
      requires encodingInit < |table| <= 255 && ratio <= 100
      ensures Valid()
      ensures rateTable == table && maxRetry == maxRetryCounts && sampleRatio == ratio && idx == encodingInit
      ensures total == 0 && sampled == 0 && sampleRow == 0 && sampleCol == 0
      ensures stats == seq(|table|, (i: nat) => RateStat(i, 0, 0, 0, 0, 0, 0, 0))
    {
      var rows: seq<seq<int>> := [];
      var col := 0;
      while col < SampleRows
        invariant 0 <= col <= SampleRows && |rows| == col
        invariant forall r :: 0 <= r < col ==> IsSampleRow(rows[r], |table|)
      {
        var row := FillSampleRow(|table|);
        rows := rows + [row];
        col := col + 1;
      }
      rateTable := table;
      maxRetry := maxRetryCounts;
      sampleRatio := ratio;
      idx := encodingInit;
      sampleTable := rows;
      stats := seq(|table|, (i: nat) => RateStat(i, 0, 0, 0, 0, 0, 0, 0));
      total := 0;
      sampled := 0;
      sampleRow := 0;
      sampleCol := 0;
    }

    /** The rate with the largest throughput; the lowest one on a tie, and
        rate 0 when every throughput is zero. */
    method SortRate() returns (best: nat)
      requires Valid()
      ensures IsBestRate(stats, best)
    {
      var maxTp := 0;
      best := 0;
      var i := 0;
      while i < N()
        invariant 0 <= i <= N() && best < N()
        invariant i == 0 ==> best == 0 && maxTp == 0
        invariant i > 0 ==> maxTp == stats[best].tp
        invariant forall j :: 0 <= j < i ==> stats[j].tp <= maxTp
        invariant forall j :: 0 <= j < best ==> stats[j].tp < maxTp
      {
        if stats[i].tp > maxTp {
          maxTp := stats[i].tp;
          best := i;
        }
        i := i + 1;
      }
    }

    /** data_sel: record the outcome of one attempt at `rate` and return the
        rate to use next.  When the share of sampled packets has fallen below
        the sampling ratio, the outcome is booked against the rate under the
        sample-table cursor instead, and the cursor moves on. */
    method Update(rate: nat, success: bool) returns (next: nat)
      requires Valid() && rate < N() && total < MaxTotalPackets
      modifies this
      ensures Valid()
      ensures total == old(total) + 1
      ensures var sampling := total * sampleRatio / 100 > old(sampled);
              idx == (if sampling then old(sampleTable[sampleRow][sampleCol]) else rate)
              && (sampleRow, sampleCol)
                 == (if sampling then NextSampleCursor(old(sampleRow), old(sampleCol), N())
                     else (old(sampleRow), old(sampleCol)))
      ensures stats == old(stats)[idx := UpdateRow(old(stats)[idx], success, maxRetry, rateTable[idx])]
      ensures sampleTable == old(sampleTable)
      ensures IsBestRate(stats, next)
    {
      CountPacket(rate);
      RecordAttempt(success);
      next := SortRate();
    }

    /** The bookkeeping half of data_sel: count the packet and, when a sample
        is due, take the rate under the cursor and move the cursor on. */
    method CountPacket(rate: nat)
      requires Valid() && rate < N() && total < MaxTotalPackets
      modifies this`idx, this`total, this`sampled, this`sampleRow, this`sampleCol
      ensures Valid()
      ensures total == old(total) + 1
      ensures var sampling := total * sampleRatio / 100 > old(sampled);
              idx == (if sampling then sampleTable[old(sampleRow)][old(sampleCol)] else rate)
              && (sampleRow, sampleCol)
                 == (if sampling then NextSampleCursor(old(sampleRow), old(sampleCol), N())
                     else (old(sampleRow), old(sampleCol)))
    {
      idx := rate;
      total := total + 1;
      var delta := total * sampleRatio / 100 - sampled;
      DivStep(total - 1, sampleRatio);
      if delta > 0 {
        SampleRowEntries(sampleTable[sampleRow], N());
        idx := sampleTable[sampleRow][sampleCol];
        sampled := sampled + 1;
        var c := NextSampleCursor(sampleRow, sampleCol, N());
        sampleRow, sampleCol := c.0, c.1;
      }
    }

    /** The statistics half of data_sel: book the outcome against rate idx. */
    method RecordAttempt(success: bool)
      requires Valid()
      modifies this`stats
      ensures Valid()
      ensures stats == old(stats)[idx := UpdateRow(old(stats)[idx], success, maxRetry, rateTable[idx])]
    {
      stats := stats[idx := UpdateRow(stats[idx], success, maxRetry, rateTable[idx])];
    }
  }

  /** With a ratio of at most 100, one more packet raises the number of
      packets due for sampling by at most one. */
  lemma DivStep(t: nat, ratio: nat)
    requires ratio <= 100
    ensures t * ratio / 100 <= (t + 1) * ratio / 100 <= t * ratio / 100 + 1
  {
    var a := t * ratio;
    assert (t + 1) * ratio == a + ratio;
    assert a == (a / 100) * 100 + a % 100;
    assert a + ratio < (a / 100) * 100 + 200;
    DivBelow(a + ratio, a / 100 + 2);
  }

  lemma DivBelow(x: nat, q: nat)
    requires x < q * 100
    ensures x / 100 < q
  {
  }

  // ---------------------------------------------------------------------
  // AARF
  // ---------------------------------------------------------------------

  /** A line of the AARF table: the rate, its consecutive successes and
      failures, and the success run needed to move up from it. */
  datatype AarfRow = AarfRow(rate: nat, success: nat, fails: nat, threshold: nat)

  /** The threshold cap after repeated failed increases. */
  const MaxAarfThreshold := 20

  class AarfController {
    const n: nat
    const aarfN: nat
    var idx: nat
    var justIncreased: bool
    var rows: seq<AarfRow>

    ghost predicate Valid()
      reads this
    {
      n >= 1 && idx < n && |rows| == n && (forall i :: 0 <= i < n ==> rows[i].rate == i)
    }

    constructor(encodingInit: nat, nDataRates: nat, aarfThreshold: nat)
      requires encodingInit < nDataRates
      ensures Valid()
      ensures n == nDataRates && aarfN == aarfThreshold && idx == encodingInit && !justIncreased
      ensures rows == seq(nDataRates, (i: nat) => AarfRow(i, 0, 0, aarfThreshold))
    {
      n := nDataRates;
      aarfN := aarfThreshold;
      idx := encodingInit;
      justIncreased := false;
      rows := seq(nDataRates, (i: nat) => AarfRow(i, 0, 0, aarfThreshold));
    }

    /** The row Python reaches with index idx - 1: the one below, or the last
        row when idx is 0 (a negative index counts from the end). */
    function RowBelow(i: nat): (j: nat)
      requires i < n
      reads this
      ensures j < n
    {
      if i == 0 then n - 1 else i - 1
    }

    /** data_sel: record the outcome at `rate` and return the rate to use
        next.  A success right after an increase confirms the new rate.  A
        run of `threshold` successes moves one rate up.  A failure right
        after an increase moves back down and doubles the threshold of the
        rate below (at most 20); two failures in a row move one rate down. */
    method Update(rate: nat, success: bool) returns (next: nat)
      requires Valid() && rate < n
      modifies this
      ensures Valid() && idx == rate
      ensures next < n
      ensures success ==> rate <= next <= rate + 1
      ensures !success ==> next <= rate <= next + 1
      ensures success && old(justIncreased) ==>
                !justIncreased && next == rate
                && rows == old(rows)[rate := old(rows[rate]).(fails := 0, success := old(rows[rate].success) + 1)]
      ensures success && !old(justIncreased) && old(rows[rate].success) + 1 == old(rows[rate].threshold) ==>
                justIncreased && next == Min(rate + 1, n - 1)
                && rows == old(rows)[rate := old(rows[rate]).(fails := 0, success := 0, threshold := aarfN)]
      ensures success && !old(justIncreased) && old(rows[rate].success) + 1 != old(rows[rate].threshold) ==>
                !justIncreased && next == rate
                && rows == old(rows)[rate := old(rows[rate]).(fails := 0, success := old(rows[rate].success) + 1)]
      ensures !success && old(justIncreased) ==>
                !justIncreased && next == Max(rate - 1, 0)
                && var cleared := old(rows)[rate := old(rows[rate]).(success := 0)];
                   rows == cleared[RowBelow(rate) := cleared[RowBelow(rate)].(
                             threshold := Min(2 * cleared[RowBelow(rate)].threshold, MaxAarfThreshold))]
      ensures !success && !old(justIncreased) && old(rows[rate].fails) != 0 ==>
                !justIncreased && next == Max(rate - 1, 0)
                && rows == old(rows)[rate := old(rows[rate]).(success := 0, fails := 0)]
      ensures !success && !old(justIncreased) && old(rows[rate].fails) == 0 ==>
                !justIncreased && next == rate
                && rows == old(rows)[rate := old(rows[rate]).(success := 0, fails := 1)]
    {
      idx := rate;
      if success {
        rows := rows[idx := rows[idx].(fails := 0, success := rows[idx].success + 1)];
        if justIncreased {
          justIncreased := false;
          return idx;
        }
        if rows[idx].success == rows[idx].threshold {
          rows := rows[idx := rows[idx].(threshold := aarfN, success := 0)];
          justIncreased := true;
          return Min(idx + 1, n - 1);
        }
        return idx;
      }
      rows := rows[idx := rows[idx].(success := 0)];
      if justIncreased {
        justIncreased := false;
        var below := RowBelow(idx);
        rows := rows[below := rows[below].(threshold := Min(2 * rows[below].threshold, MaxAarfThreshold))];
        return Max(idx - 1, 0);
      }
      if rows[idx].fails != 0 {
        rows := rows[idx := rows[idx].(fails := 0)];
        return Max(idx - 1, 0);
      }
      rows := rows[idx := rows[idx].(fails := rows[idx].fails + 1)];
      return idx;
    }
  }
}
