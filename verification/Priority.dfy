/** What re-ranking kernel partitions should do, and what that guarantees. */
module Priority {

  type Level = x: nat | x <= 15

  /** The part of a partition entry that ranking looks at. */
  datatype Entry = Entry(kernel: bool, priority: Level)

  /** setPartition is 1-based and 0 means none; maxPriority 0 means as low as possible. */
  datatype Options = Options(setPartition: nat, setFriends: bool, maxPriority: Level)

  const HIGHEST := 99

  predicate Acceptable(t: seq<Entry>, o: Options)
  {
    o.setPartition == 0 || (o.setPartition <= |t| && t[o.setPartition - 1].kernel)
  }

  /** The chosen partition, or one that moves along with it. */
  predicate Chosen(t: seq<Entry>, o: Options, i: nat)
    requires Acceptable(t, o) && i < |t|
  {
    && o.setPartition != 0
    && (i + 1 == o.setPartition || (o.setFriends && t[i].kernel && t[i].priority == t[o.setPartition - 1].priority))
  }

  /** Effective priorities; -1 stands for a partition that is not a kernel. */
  function Keys(t: seq<Entry>, o: Options): (keys: seq<int>)
    requires Acceptable(t, o)
    ensures |keys| == |t|
  {
    seq(|t|, i requires 0 <= i < |t| =>
      if !t[i].kernel then -1 else if Chosen(t, o, i) then HIGHEST else t[i].priority)
  }

  /** How many different priorities above k occur. */
  function Higher(keys: seq<int>, k: int): (n: nat)
    decreases HIGHEST - k
  {
    if k >= HIGHEST then 0 else Higher(keys, k + 1) + if k + 1 in keys then 1 else 0
  }

  function Start(keys: seq<int>, o: Options): Level
  {
    if o.maxPriority != 0 then o.maxPriority
    else if Higher(keys, 0) > 15 then 15 else Higher(keys, 0)
  }

  function Rank(start: int, r: int): int
  {
    if start - r < 1 then 1 else start - r
  }

  /** Active kernels get consecutive ranks, coalesced at 1; everything else keeps what it has. */
  function Reranked(t: seq<Entry>, o: Options): (t': seq<Entry>)
    requires Acceptable(t, o)
    ensures |t'| == |t|
  {
    var keys := Keys(t, o);
    seq(|t|, i requires 0 <= i < |t| => RerankedEntry(t[i], keys, keys[i], o))
  }

  function RerankedEntry(e: Entry, keys: seq<int>, k: int, o: Options): Entry
  {
    if k <= 0 then e else
    RankIsLevel(Start(keys, o), Higher(keys, k));
    e.(priority := Rank(Start(keys, o), Higher(keys, k)))
  }

  lemma RankIsLevel(start: Level, r: nat)
    ensures 1 <= Rank(start, r) <= 15
  {
  }

  // Order

  lemma {:induction false} HigherMonotone(keys: seq<int>, j: int, k: int)
    requires j <= k
    ensures Higher(keys, k) <= Higher(keys, j)
    ensures j < k <= HIGHEST && k in keys ==> Higher(keys, k) < Higher(keys, j)
    decreases k - j
  {
    if j < k && j < HIGHEST {
      HigherMonotone(keys, j + 1, k);
    }
  }

  /** Some kernel is active, so ranking starts at 1 or above. */
  lemma StartPositive(keys: seq<int>, o: Options, k: int)
    requires k in keys && 0 < k <= HIGHEST
    ensures Start(keys, o) >= 1
  {
    HigherMonotone(keys, 0, k);
  }

  /** Equal stays equal; higher stays strictly higher unless both are coalesced at 1. */
  lemma OrderKept(t: seq<Entry>, o: Options, i: nat, j: nat)
    requires Acceptable(t, o) && i < |t| && j < |t|
    ensures var keys, t' := Keys(t, o), Reranked(t, o);
            && (keys[i] == keys[j] > 0 ==> t'[i].priority == t'[j].priority)
            && (keys[i] > keys[j] > 0 ==>
                  t'[i].priority > t'[j].priority || t'[i].priority == t'[j].priority == 1)
  {
    var keys := Keys(t, o);
    if keys[i] > keys[j] > 0 {
      HigherMonotone(keys, keys[j], keys[i]);
    }
  }

  /** The chosen partition and its friends end up highest. */
  lemma ChosenIsHighest(t: seq<Entry>, o: Options, i: nat, j: nat)
    requires Acceptable(t, o) && i < |t| && j < |t|
    requires t[i].kernel && Chosen(t, o, i) && t[j].kernel
    ensures var t' := Reranked(t, o);
            && t'[i].priority == Start(Keys(t, o), o) >= 1
            && t'[j].priority <= t'[i].priority
            && (t'[i].priority > 1 && !Chosen(t, o, j) ==> t'[j].priority < t'[i].priority)
  {
    var keys := Keys(t, o);
    assert keys[i] == HIGHEST && keys[i] in keys;
    StartPositive(keys, o, HIGHEST);
    if 0 < keys[j] < HIGHEST {
      HigherMonotone(keys, keys[j], HIGHEST);
    }
  }

  /** Nothing active is switched off, nothing inactive and unchosen is switched on, nothing else is touched. */
  lemma ActiveKept(t: seq<Entry>, o: Options, i: nat)
    requires Acceptable(t, o) && i < |t|
    ensures var e' := Reranked(t, o)[i];
            && e'.kernel == t[i].kernel
            && (!t[i].kernel ==> e' == t[i])
            && (t[i].kernel ==> (e'.priority == 0 <==> t[i].priority == 0 && !Chosen(t, o, i)))
  {
  }

  // Running it twice

  /** Every rank below the number of priorities is taken. */
  lemma {:induction false} RankTaken(keys: seq<int>, k: int, r: nat) returns (p: int)
    requires r < Higher(keys, k)
    ensures k < p <= HIGHEST && p in keys && Higher(keys, p) == r
    decreases HIGHEST - k
  {
    if r < Higher(keys, k + 1) {
      p := RankTaken(keys, k + 1, r);
    } else {
      p := k + 1;
    }
  }

  /** What the second run sees: the level at the top, then consecutive levels down to 1. */
  ghost predicate Ladder(keys': seq<int>, start: nat, n: nat)
  {
    && (forall v :: 1 <= v < start ==> (v in keys' <==> start - v < n))
    && (forall v :: start < v < HIGHEST ==> v !in keys')
    && (start in keys' <==> HIGHEST !in keys')
  }

  lemma {:induction false} LadderAbove(keys': seq<int>, start: nat, n: nat, k: int)
    requires start <= k < HIGHEST && (forall v :: start < v < HIGHEST ==> v !in keys')
    ensures Higher(keys', k) == if HIGHEST in keys' then 1 else 0
    decreases HIGHEST - k
  {
    if k + 1 < HIGHEST {
      LadderAbove(keys', start, n, k + 1);
    }
  }

  lemma {:induction false} LadderRanks(keys': seq<int>, start: nat, n: nat, v: nat)
    requires Ladder(keys', start, n) && 0 <= v < start < HIGHEST && n >= 1
    ensures Higher(keys', v) == if start - v < n then start - v else n
    decreases start - v
  {
    if v + 1 == start {
      LadderAbove(keys', start, n, start);
    } else {
      LadderRanks(keys', start, n, v + 1);
    }
  }

  /** How a partition looks to the second run. */
  lemma KeyAfter(t: seq<Entry>, o: Options, i: nat)
    requires Acceptable(t, o) && i < |t|
    ensures var keys, t' := Keys(t, o), Reranked(t, o);
            Acceptable(t', o) && var keys', start := Keys(t', o), Start(keys, o);
            && (keys[i] <= 0 ==> keys'[i] == keys[i])
            && (keys[i] > 0 ==>
                  && Higher(keys, keys[i]) < Higher(keys, 0)
                  && t'[i].priority == Rank(start, Higher(keys, keys[i])) <= start
                  && (keys'[i] == HIGHEST || keys'[i] == t'[i].priority)
                  && (Chosen(t, o, i) ==> keys'[i] == HIGHEST)
                  && (!Chosen(t, o, i) && (t'[i].priority < start || o.setPartition == 0) ==> keys'[i] == t'[i].priority)
                  && (!Chosen(t, o, i) && o.setPartition != 0 ==> Higher(keys, keys[i]) >= 1))
  {
    hide Start;
    var keys, t' := Keys(t, o), Reranked(t, o);
    assert Acceptable(t', o);
    if o.setPartition != 0 {
      ChosenIsHighest(t, o, o.setPartition - 1, o.setPartition - 1);
    }
    if keys[i] > 0 {
      assert keys[i] in keys;
      StartPositive(keys, o, keys[i]);
      HigherMonotone(keys, 0, keys[i]);
      if o.setPartition != 0 && keys[i] < HIGHEST {
        assert keys[o.setPartition - 1] == HIGHEST;
        HigherMonotone(keys, keys[i], HIGHEST);
      }
    }
  }

  lemma LevelsAfter(t: seq<Entry>, o: Options, v: nat)
    requires Acceptable(t, o) && Acceptable(Reranked(t, o), o)
    requires var start := Start(Keys(t, o), o); 1 <= v < start
    ensures var keys, keys' := Keys(t, o), Keys(Reranked(t, o), o);
            v in keys' <==> Start(keys, o) - v < Higher(keys, 0)
  {
    hide Start, Higher, Reranked, Keys;
    var keys, keys' := Keys(t, o), Keys(Reranked(t, o), o);
    var start := Start(keys, o);
    if v in keys' {
      var i :| 0 <= i < |keys'| && keys'[i] == v;
      KeyAfter(t, o, i);
    }
    if start - v < Higher(keys, 0) {
      var p := RankTaken(keys, 0, start - v);
      var i :| 0 <= i < |keys| && keys[i] == p;
      KeyAfter(t, o, i);
      ChosenKey(t, o, i);
    }
  }

  lemma KeyOfChosen(t: seq<Entry>, o: Options)
    requires Acceptable(t, o) && o.setPartition != 0
    ensures Keys(t, o)[o.setPartition - 1] == HIGHEST
  {
  }

  lemma ChosenKey(t: seq<Entry>, o: Options, i: nat)
    requires Acceptable(t, o) && i < |t|
    ensures Keys(t, o)[i] > 0 && Chosen(t, o, i) ==> Higher(Keys(t, o), Keys(t, o)[i]) == 0
  {
  }

  /** The second run sees consecutive levels, unless everything was coalesced at 1. */
  lemma LadderAfter(t: seq<Entry>, o: Options)
    requires Acceptable(t, o) && Acceptable(Reranked(t, o), o)
    requires var keys := Keys(t, o); Higher(keys, 0) >= 1 && (Start(keys, o) >= 2 || Higher(keys, 0) == 1)
    ensures var keys := Keys(t, o);
            Ladder(Keys(Reranked(t, o), o), Start(keys, o), Higher(keys, 0))
  {
    hide Higher, Reranked, Keys;
    var keys, keys' := Keys(t, o), Keys(Reranked(t, o), o);
    var start := Start(keys, o);
    if o.setPartition != 0 {
      assert keys[o.setPartition - 1] == HIGHEST by { KeyOfChosen(t, o); }
      KeyAfter(t, o, o.setPartition - 1);
      assert keys'[o.setPartition - 1] == HIGHEST;
    } else {
      var p := RankTaken(keys, 0, 0);
      var i :| 0 <= i < |keys| && keys[i] == p;
      KeyAfter(t, o, i);
      assert keys'[i] == HIGHEST || keys'[i] == start;
    }
    forall v | 1 <= v < start
      ensures v in keys' <==> start - v < Higher(keys, 0)
    {
      LevelsAfter(t, o, v);
    }
    forall i: nat | i < |keys'|
      ensures keys'[i] == HIGHEST || keys'[i] <= start
      ensures o.setPartition == 0 ==> keys'[i] != HIGHEST
      ensures o.setPartition != 0 ==> keys'[i] != start
    {
      KeyAfter(t, o, i);
    }
  }

  /** The same options applied again change nothing. */
  lemma Idempotent(t: seq<Entry>, o: Options)
    requires Acceptable(t, o)
    ensures Acceptable(Reranked(t, o), o) && Reranked(Reranked(t, o), o) == Reranked(t, o)
  {
    hide Higher, Start, Rank, Keys;
    var keys, t' := Keys(t, o), Reranked(t, o);
    assert Acceptable(t', o);
    forall i: nat | i < |t|
      ensures Reranked(t', o)[i] == t'[i]
    {
      KeyAfter(t, o, i);
      if keys[i] > 0 {
        RankAgain(t, o, i);
      }
    }
  }

  lemma RankAgain(t: seq<Entry>, o: Options, i: nat)
    requires Acceptable(t, o) && Acceptable(Reranked(t, o), o)
    requires i < |t| && Keys(t, o)[i] > 0
    ensures var keys' := Keys(Reranked(t, o), o);
            keys'[i] > 0 && Rank(Start(keys', o), Higher(keys', keys'[i])) == Reranked(t, o)[i].priority
  {
    hide Higher, Keys, Reranked;
    var keys, keys' := Keys(t, o), Keys(Reranked(t, o), o);
    var start, n := Start(keys, o), Higher(keys, 0);
    KeyAfter(t, o, i);
    ChosenKey(t, o, i);
    if start >= 2 || n == 1 {
      LadderAfter(t, o);
      LadderRanks(keys', start, n, 0);
      LadderAbove(keys', start, n, start);
      if keys'[i] < start {
        LadderRanks(keys', start, n, keys'[i]);
      } else {
        HighestRank(keys');
      }
    }
  }

  lemma HighestRank(keys: seq<int>)
    ensures Higher(keys, HIGHEST) == 0
  {
  }

  // Which levels are in use afterwards

  /** The different effective priorities of kernels, those switched off left aside. */
  ghost function Effective(t: seq<Entry>, o: Options): set<int>
    requires Acceptable(t, o)
  {
    set i | 0 <= i < |t| && t[i].kernel && (Chosen(t, o, i) || t[i].priority > 0) ::
      if Chosen(t, o, i) then HIGHEST else t[i].priority
  }

  /** The levels at which some kernel stands. */
  ghost function Occupied(t: seq<Entry>): set<int>
  {
    set i | 0 <= i < |t| && t[i].kernel && t[i].priority > 0 :: t[i].priority as int
  }

  ghost function Above(keys: seq<int>, k: int): set<int>
  {
    set x | x in keys && x > k
  }

  lemma {:induction false} HigherCounts(keys: seq<int>, k: int)
    requires forall x :: x in keys ==> x <= HIGHEST
    ensures Higher(keys, k) == |Above(keys, k)|
    decreases HIGHEST - k
  {
    if k >= HIGHEST {
      assert Above(keys, k) == {};
    } else {
      HigherCounts(keys, k + 1);
      if k + 1 in keys {
        assert Above(keys, k) == Above(keys, k + 1) + {k + 1};
      } else {
        assert Above(keys, k) == Above(keys, k + 1);
      }
    }
  }

  lemma EffectiveKeys(t: seq<Entry>, o: Options)
    requires Acceptable(t, o)
    ensures Higher(Keys(t, o), 0) == |Effective(t, o)|
  {
    hide Higher;
    var keys := Keys(t, o);
    HigherCounts(keys, 0);
    forall x | x in Above(keys, 0)
      ensures x in Effective(t, o)
    {
      var i :| 0 <= i < |keys| && keys[i] == x;
      assert t[i].kernel;
    }
    forall x | x in Effective(t, o)
      ensures x in Above(keys, 0)
    {
      var i :| 0 <= i < |t| && t[i].kernel && (Chosen(t, o, i) || t[i].priority > 0)
        && x == if Chosen(t, o, i) then HIGHEST else t[i].priority;
      assert keys[i] == x;
    }
    assert Effective(t, o) == Above(keys, 0);
  }

  /** The levels occupied after ranking are consecutive and end at the starting level. */
  lemma Ranked(t: seq<Entry>, o: Options, v: int)
    requires Acceptable(t, o)
    ensures var keys := Keys(t, o);
            v in Occupied(Reranked(t, o)) <==> 1 <= v <= Start(keys, o) < v + Higher(keys, 0)
  {
    hide Start, Higher, Reranked, Keys, Chosen;
    var keys, t' := Keys(t, o), Reranked(t, o);
    var start := Start(keys, o);
    if v in Occupied(t') {
      var i :| 0 <= i < |t'| && t'[i].kernel && t'[i].priority == v > 0;
      ActiveKey(t, o, i);
      KeyAfter(t, o, i);
    }
    if 1 <= v <= start < v + Higher(keys, 0) {
      var p := RankTaken(keys, 0, start - v);
      var i :| 0 <= i < |keys| && keys[i] == p;
      ActiveKey(t, o, i);
      KeyAfter(t, o, i);
      assert t'[i].priority == v;
    }
  }

  lemma ActiveKey(t: seq<Entry>, o: Options, i: nat)
    requires Acceptable(t, o) && i < |t|
    ensures Keys(t, o)[i] > 0 <==> Reranked(t, o)[i].kernel && Reranked(t, o)[i].priority > 0
  {
    hide Start, Higher;
  }

  /**
    * With no ceiling asked for, the occupied levels are 1 up to the number of different priorities, at most 15;
    * with ceiling m they are m and the next ones down, as many as there are different priorities above level 0.
    */
  lemma NewLevels(t: seq<Entry>, o: Options)
    requires Acceptable(t, o)
    ensures var n, m := |Effective(t, o)|, o.maxPriority;
            var low := if m == 0 || m < n then 1 else m - n + 1;
            var high := if m > 0 then m else if n <= 15 then n else 15;
            forall v :: v in Occupied(Reranked(t, o)) <==> n > 0 && low <= v <= high
  {
    hide Higher, Reranked, Keys, Chosen, Effective, Occupied;
    EffectiveKeys(t, o);
    forall v: int
      ensures v in Occupied(Reranked(t, o)) <==>
              1 <= v <= Start(Keys(t, o), o) < v + Higher(Keys(t, o), 0)
    {
      Ranked(t, o, v);
    }
  }

  /** Partitions at the chosen one's old priority move with it exactly when asked to; all others stay below it. */
  lemma FriendsMove(t: seq<Entry>, o: Options, i: nat)
    requires Acceptable(t, o) && o.setPartition != 0
    requires i < |t| && i + 1 != o.setPartition && t[i].kernel
    ensures var c, t' := o.setPartition - 1, Reranked(t, o);
            if o.setFriends && t[i].priority == t[c].priority then t'[i].priority == t'[c].priority
            else t'[i].priority < t'[c].priority || t'[i].priority == t'[c].priority == 1
  {
    hide Start, Higher, Reranked, Keys;
    ChosenIsHighest(t, o, o.setPartition - 1, i);
    if Chosen(t, o, i) {
      ChosenIsHighest(t, o, i, o.setPartition - 1);
    }
  }
}
