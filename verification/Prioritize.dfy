/** Re-ranking in memory: collect groups, sort them, hand out ranks, write them back. */
module Prioritize {
  import opened Priority
  import opened PriorityGroups

  class GroupList {
    const maxParts: nat
    const group: array<Group>
    var numGroups: nat

    ghost predicate Valid()
      reads this, group
    {
      && group.Length == MAX_GROUPS && numGroups <= MAX_GROUPS
      && forall i :: numGroups <= i < MAX_GROUPS ==> group[i].parts == []
    }

    ghost function Groups(): seq<Group>
      reads this, group
      requires numGroups <= group.Length
    {
      group[..numGroups]
    }

    constructor (max_p: nat)
      ensures Valid() && fresh(group) && maxParts == max_p && Groups() == []
    {
      maxParts := max_p;
      numGroups := 0;
      group := new Group[MAX_GROUPS](_ => Group(-1, []));
    }

    method AddToGroup(priority: int, partition: nat)
      requires Valid()
      requires Has(Groups(), priority) || numGroups < MAX_GROUPS
      requires forall a :: 0 <= a < numGroups && group[a].priority == priority ==> |group[a].parts| < maxParts
      modifies this, group
      ensures Valid() && Groups() == Added(old(Groups()), priority, partition)
    {
      hide Find, Has;
      ghost var gs := Groups();
      var i := FindGroup(priority);
      if i == numGroups {
        numGroups := numGroups + 1;
        group[i] := Group(priority, group[i].parts);
        assert group[i].parts + [partition] == [partition];
      }
      group[i] := group[i].(parts := group[i].parts + [partition]);
      assert forall a :: 0 <= a < |gs| && a != i ==> Groups()[a] == gs[a];
    }

    method FindGroup(priority: int) returns (i: nat)
      requires numGroups <= group.Length
      ensures i == Find(Groups(), priority)
    {
      i := 0;
      while i < numGroups && group[i].priority != priority
        invariant i <= numGroups
        invariant forall b :: 0 <= b < i ==> group[b].priority != priority
      {
        i := i + 1;
      }
      FindIs(Groups(), priority, i);
    }

    method ChangeGroup(old_priority: int, new_priority: int)
      requires Valid()
      modifies group
      ensures Valid() && Groups() == Changed(old(Groups()), old_priority, new_priority)
    {
      var i := FindGroup(old_priority);
      if i < numGroups {
        group[i] := group[i].(priority := new_priority);
      }
    }

    /** Straight insertion sort, highest priority first. */
    method SortGroups()
      requires numGroups <= group.Length
      modifies group
      ensures Groups() == Sorted(old(Groups()))
    {
      hide Sorted, Insert;
      ghost var all := group[..];
      SortedOne(all);
      var i := 1;
      while i < numGroups
        invariant 1 <= i && (i <= numGroups || i == 1)
        invariant i <= numGroups ==> group[..i] == Sorted(all[..i])
        invariant numGroups == 0 ==> group[..] == all
        invariant forall a :: i <= a < group.Length ==> group[a] == all[a]
      {
        SortedNext(all, i);
        InsertInto(i, Sorted(all[..i]));
        i := i + 1;
      }
    }

    /** Moves group i down to its place among the sorted groups before it. */
    method InsertInto(i: nat, ghost s: seq<Group>)
      requires i < group.Length && |s| == i && group[..i] == s
      modifies group
      ensures group[..i + 1] == Insert(s, old(group[i]))
      ensures forall a :: i < a < group.Length ==> group[a] == old(group[a])
    {
      hide Insert;
      var tmp := group[i];
      var j := i;
      ghost var all := group[..];
      assert s[..j] == s && s[j..] == [];
      while j > 0 && group[j - 1].priority < tmp.priority
        invariant 0 <= j <= i
        invariant forall a :: 0 <= a < j ==> group[a] == s[a]
        invariant forall a :: j < a <= i ==> group[a] == s[a - 1]
        invariant forall a :: i < a < group.Length ==> group[a] == all[a]
        invariant Insert(s, tmp) == Insert(s[..j], tmp) + s[j..]
      {
        InsertStep(s, j, tmp);
        group[j] := group[j - 1];
        j := j - 1;
      }
      InsertHere(s, j, tmp);
      group[j] := tmp;
      assert group[..i + 1] == s[..j] + [tmp] + s[j..];
    }
  }

  lemma SortedOne(gs: seq<Group>)
    ensures Sorted(gs[..0]) == []
    ensures |gs| > 0 ==> Sorted(gs[..1]) == gs[..1]
  {
    if |gs| > 0 {
      assert gs[..1] == [gs[0]] && gs[..1][..0] == [];
    }
  }

  lemma SortedNext(gs: seq<Group>, i: nat)
    requires i < |gs|
    ensures Sorted(gs[..i + 1]) == Insert(Sorted(gs[..i]), gs[i])
  {
    assert gs[..i + 1][..i] == gs[..i];
  }

  lemma InsertStep(s: seq<Group>, j: nat, g: Group)
    requires 0 < j <= |s| && s[j - 1].priority < g.priority
    ensures Insert(s[..j], g) + s[j..] == Insert(s[..j - 1], g) + s[j - 1..]
  {
    assert s[..j][..j - 1] == s[..j - 1];
    assert [s[j - 1]] + s[j..] == s[j - 1..];
    var front := Insert(s[..j - 1], g);
    assert Insert(s[..j], g) == front + [s[j - 1]];
    assert front + [s[j - 1]] + s[j..] == front + ([s[j - 1]] + s[j..]);
  }

  lemma InsertHere(s: seq<Group>, j: nat, g: Group)
    requires j <= |s| && (j == 0 || s[j - 1].priority >= g.priority)
    ensures Insert(s[..j], g) == s[..j] + [g]
  {
  }

  lemma {:induction false} FindIs(gs: seq<Group>, p: int, i: nat)
    requires i <= |gs| && (forall b :: 0 <= b < i ==> gs[b].priority != p) && (i < |gs| ==> gs[i].priority == p)
    ensures Find(gs, p) == i
  {
    if i > 0 {
      FindIs(gs[1..], p, i - 1);
    }
  }

  // Collecting

  /** Keys while groups are collected; friends are moved afterwards. */
  function RawKeys(t: seq<Entry>, o: Options): (keys: seq<int>)
    requires Acceptable(t, o)
    ensures |keys| == |t|
  {
    seq(|t|, i requires 0 <= i < |t| =>
      if !t[i].kernel then -1
      else if o.setPartition != 0 && i + 1 == o.setPartition && !o.setFriends then HIGHEST
      else t[i].priority)
  }

  method CountKernels(table: array<Entry>, o: Options) returns (n: nat)
    requires Acceptable(table[..], o)
    ensures n == Kernels(RawKeys(table[..], o))
  {
    ghost var keys := RawKeys(table[..], o);
    n := 0;
    var i := 0;
    while i < table.Length
      invariant 0 <= i <= table.Length && n == Kernels(keys[..i])
    {
      KernelsGrow(keys, i);
      if table[i].kernel {
        n := n + 1;
      }
      i := i + 1;
    }
    assert keys[..i] == keys;
  }

  method Collect(table: array<Entry>, o: Options, n: nat) returns (groups: GroupList, orig: int)
    requires Acceptable(table[..], o) && n == Kernels(RawKeys(table[..], o))
    ensures fresh(groups) && fresh(groups.group) && groups.Valid()
    ensures Grouped(groups.Groups(), RawKeys(table[..], o))
    ensures o.setPartition != 0 ==> orig == table[o.setPartition - 1].priority
  {
    hide Grouped, Added, Kernels;
    ghost var keys := RawKeys(table[..], o);
    groups := new GroupList(n);
    orig := 0;
    NothingGrouped();
    assert keys[..0] == [];
    var i := 0;
    while i < table.Length
      invariant 0 <= i <= table.Length
      invariant fresh(groups) && fresh(groups.group) && groups.Valid() && groups.maxParts == n
      invariant Grouped(groups.Groups(), keys[..i])
      invariant 0 < o.setPartition <= i ==> orig == table[o.setPartition - 1].priority
      modifies groups, groups.group
    {
      ghost var gs := groups.Groups();
      AddedGrouped(gs, keys[..i], keys[i]);
      assert keys[..i] + [keys[i]] == keys[..i + 1];
      if table[i].kernel {
        RoomToAdd(gs, keys, i);
        assert forall a :: 0 <= a < |gs| ==> groups.group[a] == gs[a];
        var priority := table[i].priority;
        if o.setPartition != 0 && i + 1 == o.setPartition {
          orig := priority;
          if o.setFriends {
            groups.AddToGroup(priority, i);
          } else {
            groups.AddToGroup(HIGHEST, i);
          }
        } else {
          groups.AddToGroup(priority, i);
        }
      }
      i := i + 1;
    }
    assert keys[..i] == keys;
  }

  lemma NothingGrouped()
    ensures Grouped([], [])
  {
  }

  /** There is a free group for a new priority and a free place in an old group. */
  lemma RoomToAdd(gs: seq<Group>, keys: seq<int>, i: nat)
    requires i < |keys| && Grouped(gs, keys[..i]) && keys[i] != -1 && Legal(keys)
    ensures Has(gs, keys[i]) || |gs| < MAX_GROUPS
    ensures forall a :: 0 <= a < |gs| ==> |gs[a].parts| < Kernels(keys)
  {
    hide Has, Grouped, Kernels, Find;
    KernelsGrow(keys, i);
    PartsFit(gs, keys[..i]);
    var before, now := keys[..i], keys[..i + 1];
    assert |before| == i && before + [keys[i]] == now;
    AddedGrouped(gs, before, keys[i]);
    assert Legal(now) by {
      assert forall j :: 0 <= j < |now| ==> now[j] in keys;
    }
    GroupsFit(Added(gs, keys[i], |before|), now);
  }

  lemma PartsFit(gs: seq<Group>, keys: seq<int>)
    requires Grouped(gs, keys)
    ensures forall a :: 0 <= a < |gs| ==> |gs[a].parts| <= Kernels(keys)
  {
    hide Members, Has;
    forall a | 0 <= a < |gs|
      ensures |gs[a].parts| <= Kernels(keys)
    {
      MembersFit(keys, gs[a].priority);
    }
  }

  /** Moving the friends along turns the collected keys into the effective ones. */
  lemma FriendsMoved(t: seq<Entry>, o: Options, gs: seq<Group>)
    requires Acceptable(t, o) && Grouped(gs, RawKeys(t, o))
    ensures if o.setPartition != 0 && o.setFriends
            then Grouped(Changed(gs, t[o.setPartition - 1].priority, HIGHEST), Keys(t, o))
            else Grouped(gs, Keys(t, o))
  {
    hide Grouped, Changed;
    var raw, keys := RawKeys(t, o), Keys(t, o);
    if o.setPartition != 0 && o.setFriends {
      assert raw[o.setPartition - 1] == t[o.setPartition - 1].priority;
      ChangedGrouped(gs, raw, t[o.setPartition - 1].priority, keys);
    } else {
      assert raw == keys;
    }
  }

  /** The sorted groups of a table. */
  method Regroup(table: array<Entry>, o: Options, n: nat) returns (groups: GroupList)
    requires Acceptable(table[..], o) && n == Kernels(RawKeys(table[..], o))
    ensures fresh(groups) && fresh(groups.group) && groups.group.Length == MAX_GROUPS && groups.numGroups <= MAX_GROUPS
    ensures Grouped(groups.Groups(), Keys(table[..], o)) && Descending(groups.Groups())
  {
    hide Grouped, Changed, Sorted, Kernels;
    var orig;
    groups, orig := Collect(table, o, n);
    FriendsMoved(table[..], o, groups.Groups());
    if o.setPartition != 0 && o.setFriends {
      groups.ChangeGroup(orig, HIGHEST);
    }
    SortedGrouped(groups.Groups(), Keys(table[..], o));
    groups.SortGroups();
  }

  // Ranking

  /** The highest group starts; every next one is one lower, but never below 1. */
  method AssignRanks(groups: GroupList, o: Options, ghost keys: seq<int>)
    requires groups.group.Length == MAX_GROUPS && 0 < groups.numGroups <= MAX_GROUPS
    requires Grouped(groups.Groups(), keys) && Descending(groups.Groups()) && Legal(keys)
    modifies groups, groups.group
    ensures groups.numGroups == Higher(keys, 0) <= old(groups.numGroups)
    ensures forall a :: 0 <= a < groups.numGroups ==>
              && groups.group[a].parts == Members(keys, old(groups.group[a].priority))
              && old(groups.group[a].priority) > 0
              && Higher(keys, old(groups.group[a].priority)) == a
              && groups.group[a].priority == Rank(Start(keys, o), a)
  {
    hide Higher, Members, Grouped, Descending, Legal;
    ghost var gs := groups.Groups();
    assert forall a :: 0 <= a < |gs| ==> gs[a] == groups.group[a];
    var last := groups.numGroups - 1;
    if groups.group[last].priority == 0 {
      groups.numGroups := last;
    }
    var m := groups.numGroups;
    Positions(gs, keys, m);
    var start := if o.maxPriority != 0 then o.maxPriority else if m > 15 then 15 else m;
    var priority: nat := start;
    var i := 0;
    while i < m
      invariant 0 <= i <= m == groups.numGroups
      invariant i < m ==> priority == Rank(start, i)
      invariant forall a :: 0 <= a < i ==> groups.group[a] == Group(Rank(start, a), gs[a].parts)
      invariant forall a :: i <= a < |gs| ==> groups.group[a] == gs[a]
      modifies groups.group
    {
      groups.group[i] := groups.group[i].(priority := priority);
      if priority > 1 {
        priority := priority - 1;
      }
      i := i + 1;
    }
  }

  lemma Positions(gs: seq<Group>, keys: seq<int>, m: nat)
    requires Grouped(gs, keys) && Descending(gs) && Legal(keys) && |gs| > 0
    requires m == if gs[|gs| - 1].priority == 0 then |gs| - 1 else |gs|
    ensures m == Higher(keys, 0)
    ensures forall a :: 0 <= a < m ==> gs[a].priority > 0 && Higher(keys, gs[a].priority) == a
    ensures forall a :: 0 <= a < m ==> gs[a].parts == Members(keys, gs[a].priority)
  {
    hide Higher, Has, Members;
    forall a | 0 <= a < m
      ensures gs[a].priority > 0 && Higher(keys, gs[a].priority) == a
    {
      assert gs[a].priority in keys;
      PositionIsHigher(gs, keys, gs[a].priority, a);
    }
    PositionIsHigher(gs, keys, 0, m);
  }

  // Writing back

  /** What the table holds once all groups before position i are written. */
  ghost predicate Written(now: seq<Entry>, t: seq<Entry>, keys: seq<int>, o: Options, i: nat)
    requires |keys| == |t|
  {
    && |now| == |t|
    && forall j :: 0 <= j < |t| ==>
         now[j] == if keys[j] > 0 && Higher(keys, keys[j]) < i then RerankedEntry(t[j], keys, keys[j], o) else t[j]
  }

  /** Different keys have different ranks. */
  lemma SameRank(keys: seq<int>, j: nat, p: int)
    requires j < |keys| && keys[j] > 0 && p > 0 && p in keys && Legal(keys)
    ensures Higher(keys, keys[j]) == Higher(keys, p) <==> keys[j] == p
  {
    hide Higher;
    if keys[j] < p {
      HigherMonotone(keys, keys[j], p);
    } else {
      HigherMonotone(keys, p, keys[j]);
    }
  }

  /** SetPriority on every partition of the group at position i. */
  method WriteGroup(table: array<Entry>, parts: seq<nat>, priority: Level,
                    ghost t: seq<Entry>, ghost keys: seq<int>, ghost o: Options, ghost i: nat, ghost p: int)
    requires |keys| == |t| && Legal(keys) && Written(table[..], t, keys, o, i)
    requires p > 0 && p in keys && Higher(keys, p) == i
    requires parts == Members(keys, p) && priority == Rank(Start(keys, o), i)
    modifies table
    ensures Written(table[..], t, keys, o, i + 1)
  {
    hide Higher, Members, Start, Rank;
    MembersExact(keys, p);
    var c := 0;
    while c < |parts|
      invariant 0 <= c <= |parts|
      invariant forall j :: 0 <= j < |t| ==> table[j] == if j in parts[..c] then t[j].(priority := priority)
                                                        else old(table[j])
    {
      assert parts[c] in parts;
      assert parts[..c + 1] == parts[..c] + [parts[c]];
      assert old(table[..])[parts[c]] == old(table[parts[c]]);
      table[parts[c]] := table[parts[c]].(priority := priority);
      c := c + 1;
    }
    assert parts[..c] == parts;
    forall j: nat | j < |t|
      ensures table[j] == if keys[j] > 0 && Higher(keys, keys[j]) < i + 1 then RerankedEntry(t[j], keys, keys[j], o) else t[j]
    {
      assert old(table[..])[j] == old(table[j]);
      if keys[j] > 0 {
        SameRank(keys, j, p);
      }
    }
  }

  lemma {:induction false} NoKernelKeys(keys: seq<int>)
    ensures Kernels(keys) == 0 <==> forall j :: 0 <= j < |keys| ==> keys[j] == -1
  {
    if |keys| > 0 {
      NoKernelKeys(keys[..|keys| - 1]);
      assert forall j :: 0 <= j < |keys| - 1 ==> keys[j] == keys[..|keys| - 1][j];
    }
  }

  lemma NoKernels(t: seq<Entry>, o: Options)
    requires Acceptable(t, o) && Kernels(RawKeys(t, o)) == 0
    ensures Reranked(t, o) == t
  {
    hide Kernels, Higher;
    NoKernelKeys(RawKeys(t, o));
    forall j | 0 <= j < |t|
      ensures Reranked(t, o)[j] == t[j]
    {
      assert RawKeys(t, o)[j] == -1;
    }
  }

  lemma SomeGroup(gs: seq<Group>, t: seq<Entry>, o: Options)
    requires Acceptable(t, o) && Kernels(RawKeys(t, o)) > 0 && Grouped(gs, Keys(t, o))
    ensures |gs| > 0 && Legal(Keys(t, o))
  {
    hide Kernels, Members;
    NoKernelKeys(RawKeys(t, o));
    var j :| 0 <= j < |t| && RawKeys(t, o)[j] != -1;
    assert Keys(t, o)[j] in Keys(t, o);
    assert Has(gs, Keys(t, o)[j]);
  }

  lemma NothingWritten(t: seq<Entry>, keys: seq<int>, o: Options)
    requires |keys| == |t|
    ensures Written(t, t, keys, o, 0)
  {
  }

  lemma AllWritten(now: seq<Entry>, t: seq<Entry>, o: Options)
    requires Acceptable(t, o) && Written(now, t, Keys(t, o), o, Higher(Keys(t, o), 0))
    ensures now == Reranked(t, o)
  {
    hide Higher;
    var keys := Keys(t, o);
    forall j | 0 <= j < |t|
      ensures now[j] == Reranked(t, o)[j]
    {
      if keys[j] > 0 {
        HigherMonotone(keys, 0, keys[j]);
      }
    }
  }

  /** Re-ranks the kernels of a table in place; an unusable partition number leaves it alone. */
  method Prioritize(table: array<Entry>, o: Options) returns (ok: bool)
    modifies table
    ensures ok <==> Acceptable(old(table[..]), o)
    ensures !ok ==> table[..] == old(table[..])
    ensures ok ==> table[..] == Reranked(old(table[..]), o)
  {
    hide Higher, Members, Has, Kernels, Descending;
    if o.setPartition != 0 {
      if o.setPartition > table.Length {
        return false;
      }
      if !table[o.setPartition - 1].kernel {
        return false;
      }
    }
    ok := true;
    ghost var t := table[..];
    ghost var keys := Keys(t, o);
    var num_kernels := CountKernels(table, o);
    if num_kernels > 0 {
      var groups := Regroup(table, o, num_kernels);
      SomeGroup(groups.Groups(), t, o);
      ghost var gs := groups.Groups();
      AssignRanks(groups, o, keys);
      NothingWritten(t, keys, o);
      var i := 0;
      while i < groups.numGroups
        invariant 0 <= i <= groups.numGroups && Written(table[..], t, keys, o, i)
        modifies table
      {
        assert gs[i].priority in keys;
        RankIsLevel(Start(keys, o), i);
        WriteGroup(table, groups.group[i].parts, groups.group[i].priority, t, keys, o, i, gs[i].priority);
        i := i + 1;
      }
      AllWritten(table[..], t, o);
    } else {
      NoKernels(t, o);
    }
  }
}
