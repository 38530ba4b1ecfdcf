/** Groups of partitions with the same priority, and re-ranking with them. */
module PriorityGroups {
  import opened Priority

  const MAX_GROUPS := 17

  datatype Group = Group(priority: int, parts: seq<nat>)

  predicate Has(gs: seq<Group>, p: int)
  {
    exists a :: 0 <= a < |gs| && gs[a].priority == p
  }

  /** The partitions with key p, in order. */
  function Members(keys: seq<int>, p: int): (parts: seq<nat>)
  {
    if |keys| == 0 then [] else
    var n := |keys| - 1;
    var front := Members(keys[..n], p);
    if keys[n] == p then front + [n] else front
  }

  lemma {:induction false} MembersExact(keys: seq<int>, p: int)
    ensures forall x :: x in Members(keys, p) <==> 0 <= x < |keys| && keys[x] == p
  {
    if |keys| > 0 {
      MembersExact(keys[..|keys| - 1], p);
    }
  }

  /** A group holds exactly the partitions with its priority, and there are some. */
  predicate IsGroup(g: Group, keys: seq<int>)
  {
    g.priority != -1 && g.priority in keys && g.parts == Members(keys, g.priority)
  }

  /** Every kernel is in exactly one group, that of its key. */
  ghost predicate Grouped(gs: seq<Group>, keys: seq<int>)
  {
    && (forall a, b :: 0 <= a < b < |gs| ==> gs[a].priority != gs[b].priority)
    && (forall a :: 0 <= a < |gs| ==> IsGroup(gs[a], keys))
    && (forall k :: k in keys && k != -1 ==> Has(gs, k))
  }

  function Find(gs: seq<Group>, p: int): (a: nat)
    ensures a <= |gs| && (a < |gs| ==> gs[a].priority == p) && (a < |gs| <==> Has(gs, p))
    ensures forall b :: 0 <= b < a ==> gs[b].priority != p
  {
    if |gs| == 0 then 0
    else if gs[0].priority == p then 0
    else
      var a := Find(gs[1..], p);
      assert a < |gs| - 1 ==> gs[1..][a] == gs[a + 1];
      assert forall b :: 0 < b < |gs| ==> gs[b] == gs[1..][b - 1];
      1 + a
  }

  function Added(gs: seq<Group>, p: int, x: nat): seq<Group>
  {
    var a := Find(gs, p);
    if a < |gs| then gs[a := Group(p, gs[a].parts + [x])] else gs + [Group(p, [x])]
  }

  function Changed(gs: seq<Group>, old_priority: int, new_priority: int): seq<Group>
  {
    var a := Find(gs, old_priority);
    if a < |gs| then gs[a := gs[a].(priority := new_priority)] else gs
  }

  function Insert(s: seq<Group>, g: Group): (r: seq<Group>)
    ensures |r| == |s| + 1
  {
    if |s| == 0 || s[|s| - 1].priority >= g.priority then s + [g]
    else Insert(s[..|s| - 1], g) + [s[|s| - 1]]
  }

  function Sorted(gs: seq<Group>): (r: seq<Group>)
    ensures |r| == |gs|
  {
    if |gs| == 0 then [] else Insert(Sorted(gs[..|gs| - 1]), gs[|gs| - 1])
  }

  lemma {:induction false} InsertExact(s: seq<Group>, g: Group)
    ensures multiset(Insert(s, g)) == multiset(s) + multiset{g}
  {
    if |s| > 0 {
      assert s == s[..|s| - 1] + [s[|s| - 1]];
      InsertExact(s[..|s| - 1], g);
    }
  }

  /** Sorting neither loses nor adds a group. */
  lemma {:induction false} SortedExact(gs: seq<Group>)
    ensures multiset(Sorted(gs)) == multiset(gs)
  {
    if |gs| > 0 {
      var n := |gs| - 1;
      assert gs == gs[..n] + [gs[n]];
      SortedExact(gs[..n]);
      InsertExact(Sorted(gs[..n]), gs[n]);
    }
  }

  predicate Descending(gs: seq<Group>)
  {
    forall a, b :: 0 <= a < b < |gs| ==> gs[a].priority > gs[b].priority
  }

  // Building groups

  lemma AddedGrouped(gs: seq<Group>, keys: seq<int>, p: int)
    requires Grouped(gs, keys)
    ensures p != -1 ==> Grouped(Added(gs, p, |keys|), keys + [p])
    ensures p == -1 ==> Grouped(gs, keys + [p])
  {
    hide IsGroup, Has, Added;
    var keys' := keys + [p];
    var gs' := if p == -1 then gs else Added(gs, p, |keys|);
    AddedShape(gs, p, |keys|);
    forall a | 0 <= a < |gs'|
      ensures IsGroup(gs'[a], keys')
    {
      if p == -1 {
        GroupStays(gs[a], keys);
      } else if a < |gs| {
        GroupGrows(gs[a], keys, p, gs'[a]);
      } else {
        GroupOpens(gs, keys, p);
      }
    }
    forall k | k in keys' && k != -1
      ensures Has(gs', k)
    {
      HasAfter(gs, keys, p, k);
    }
  }

  lemma GroupStays(g: Group, keys: seq<int>)
    requires IsGroup(g, keys)
    ensures IsGroup(g, keys + [-1])
  {
    MembersSnoc(keys, -1, g.priority);
  }

  lemma GroupGrows(g: Group, keys: seq<int>, p: int, g': Group)
    requires IsGroup(g, keys)
    requires g' == Group(g.priority, g.parts + if g.priority == p then [|keys|] else [])
    ensures IsGroup(g', keys + [p])
  {
    MembersSnoc(keys, p, g.priority);
  }

  lemma GroupOpens(gs: seq<Group>, keys: seq<int>, p: int)
    requires Grouped(gs, keys) && p != -1 && !Has(gs, p)
    ensures IsGroup(Group(p, [|keys|]), keys + [p])
  {
    hide Has;
    NoMembers(keys, p);
    MembersSnoc(keys, p, p);
  }

  /** Adding changes the parts of one group only, or opens one group at the end. */
  lemma AddedShape(gs: seq<Group>, p: int, x: nat)
    requires forall a, b :: 0 <= a < b < |gs| ==> gs[a].priority != gs[b].priority
    ensures var gs' := Added(gs, p, x);
            && |gs'| == (if Has(gs, p) then |gs| else |gs| + 1)
            && (forall a :: 0 <= a < |gs| ==>
                  gs'[a] == Group(gs[a].priority, gs[a].parts + if gs[a].priority == p then [x] else []))
            && (!Has(gs, p) ==> gs'[|gs|] == Group(p, [x]) && forall a :: 0 <= a < |gs| ==> gs[a].priority != p)
  {
    hide Has;
  }

  lemma MembersSnoc(keys: seq<int>, p: int, q: int)
    ensures Members(keys + [p], q) == Members(keys, q) + if p == q then [|keys|] else []
  {
    assert (keys + [p])[..|keys|] == keys;
  }

  lemma {:induction false} NoMembers(keys: seq<int>, p: int)
    requires p !in keys
    ensures Members(keys, p) == []
  {
    if |keys| > 0 {
      NoMembers(keys[..|keys| - 1], p);
    }
  }

  lemma HasAfter(gs: seq<Group>, keys: seq<int>, p: int, k: int)
    requires Grouped(gs, keys) && k in keys + [p] && k != -1
    ensures Has(if p == -1 then gs else Added(gs, p, |keys|), k)
  {
    hide Members;
    var gs' := if p == -1 then gs else Added(gs, p, |keys|);
    var a := Find(gs, k);
    assert k in keys || k == p;
    assert gs'[a].priority == k;
  }

  /** Values below b that all differ are at most b. */
  lemma {:induction false} Pigeonhole(s: seq<nat>, b: nat)
    requires forall i :: 0 <= i < |s| ==> s[i] < b
    requires forall i, j :: 0 <= i < j < |s| ==> s[i] != s[j]
    ensures |s| <= b
  {
    if |s| > 0 {
      assert s[0] < b;
      if i :| 0 <= i < |s| && s[i] == b - 1 {
        Pigeonhole(s[..i] + s[i + 1..], b - 1);
      } else {
        Pigeonhole(s, b - 1);
      }
    }
  }

  predicate Legal(keys: seq<int>)
  {
    forall k :: k in keys ==> -1 <= k <= 15 || k == HIGHEST
  }

  /** The group array never overflows. */
  lemma GroupsFit(gs: seq<Group>, keys: seq<int>)
    requires Grouped(gs, keys) && Legal(keys)
    ensures |gs| <= MAX_GROUPS
  {
    var s := seq(|gs|, a requires 0 <= a < |gs| => Slot(gs[a].priority));
    forall a | 0 <= a < |s|
      ensures s[a] < MAX_GROUPS
    {
      assert gs[a].priority in keys;
    }
    Pigeonhole(s, MAX_GROUPS);
  }

  function Slot(p: int): nat
  {
    if 0 <= p <= 15 then p else 16
  }

  function Kernels(keys: seq<int>): nat
  {
    if |keys| == 0 then 0 else Kernels(keys[..|keys| - 1]) + if keys[|keys| - 1] == -1 then 0 else 1
  }

  lemma {:induction false} KernelsGrow(keys: seq<int>, i: nat)
    requires i < |keys|
    ensures Kernels(keys[..i + 1]) <= Kernels(keys)
    ensures Kernels(keys[..i + 1]) == Kernels(keys[..i]) + if keys[i] == -1 then 0 else 1
    decreases |keys|
  {
    assert keys[..i + 1][..i] == keys[..i];
    if i + 1 < |keys| {
      var front := keys[..|keys| - 1];
      KernelsGrow(front, i);
      assert front[..i + 1] == keys[..i + 1] && front[..i] == keys[..i];
    } else {
      assert keys[..i + 1] == keys;
    }
  }

  lemma {:induction false} MembersFit(keys: seq<int>, p: int)
    requires p != -1
    ensures |Members(keys, p)| <= Kernels(keys)
  {
    if |keys| > 0 {
      MembersFit(keys[..|keys| - 1], p);
    }
  }

  lemma {:induction false} MembersSame(keys: seq<int>, p: int, keys': seq<int>, p': int)
    requires |keys| == |keys'|
    requires forall i :: 0 <= i < |keys| ==> (keys[i] == p <==> keys'[i] == p')
    ensures Members(keys, p) == Members(keys', p')
  {
    if |keys| > 0 {
      var n := |keys| - 1;
      MembersSame(keys[..n], p, keys'[..n], p');
    }
  }

  /** Raising one group: exactly its members get the new key. */
  lemma ChangedGrouped(gs: seq<Group>, keys: seq<int>, p: int, keys': seq<int>)
    requires Grouped(gs, keys) && |keys| == |keys'| && 0 <= p < HIGHEST && HIGHEST !in keys && p in keys
    requires forall i :: 0 <= i < |keys| ==> keys'[i] == if keys[i] == p then HIGHEST else keys[i]
    ensures Grouped(Changed(gs, p, HIGHEST), keys')
  {
    var gs' := Changed(gs, p, HIGHEST);
    var f := Find(gs, p);
    assert Has(gs, p);
    forall a | 0 <= a < |gs|
      ensures gs'[a].parts == Members(keys', gs'[a].priority) && gs'[a].priority in keys' && gs'[a].priority != -1
    {
      MembersSame(keys, gs[a].priority, keys', gs'[a].priority);
      var i :| 0 <= i < |keys| && keys[i] == gs[a].priority;
      assert keys'[i] == gs'[a].priority;
    }
    forall k | k in keys' && k != -1
      ensures Has(gs', k)
    {
      if k == HIGHEST {
        assert gs'[f].priority == k;
      } else {
        var i :| 0 <= i < |keys'| && keys'[i] == k;
        assert keys[i] == k;
        var a := Find(gs, k);
        assert gs'[a].priority == k;
      }
    }
  }

  // Sorting

  lemma {:induction false} InsertDescending(s: seq<Group>, g: Group)
    requires Descending(s) && forall a :: 0 <= a < |s| ==> s[a].priority != g.priority
    ensures Descending(Insert(s, g))
    ensures forall a :: 0 <= a < |s| + 1 ==> Insert(s, g)[a] == g || Insert(s, g)[a] in s
  {
    if |s| > 0 && s[|s| - 1].priority < g.priority {
      InsertDescending(s[..|s| - 1], g);
    }
  }

  lemma {:induction false} SortedDescending(gs: seq<Group>)
    requires forall a, b :: 0 <= a < b < |gs| ==> gs[a].priority != gs[b].priority
    ensures Descending(Sorted(gs))
    ensures forall a :: 0 <= a < |gs| ==> Sorted(gs)[a] in gs
  {
    hide Insert;
    if |gs| > 0 {
      var n := |gs| - 1;
      SortedDescending(gs[..n]);
      InsertDescending(Sorted(gs[..n]), gs[n]);
    }
  }

  lemma SortedGrouped(gs: seq<Group>, keys: seq<int>)
    requires Grouped(gs, keys)
    ensures Grouped(Sorted(gs), keys) && Descending(Sorted(gs))
  {
    hide Sorted, Members, Has;
    SortedDescending(gs);
    SortedExact(gs);
    var r := Sorted(gs);
    forall k | k in keys && k != -1
      ensures Has(r, k)
    {
      var a := Find(gs, k);
      assert gs[a] in multiset(gs);
      var b :| 0 <= b < |r| && r[b] == gs[a];
      HasAt(r, b);
    }
  }

  lemma HasAt(gs: seq<Group>, a: nat)
    requires a < |gs|
    ensures Has(gs, gs[a].priority)
  {
  }

  /** In a sorted list the position of a group is the number of higher priorities. */
  lemma {:induction false} PositionIsHigher(gs: seq<Group>, keys: seq<int>, k: int, c: nat)
    requires Grouped(gs, keys) && Descending(gs) && Legal(keys) && k >= 0 && c <= |gs|
    requires c == 0 || gs[c - 1].priority > k
    requires c == |gs| || gs[c].priority <= k
    ensures Higher(keys, k) == c
    decreases HIGHEST - k
  {
    hide Has, Members;
    if k < HIGHEST {
      if k + 1 in keys {
        var a := Find(gs, k + 1);
        PositionIsHigher(gs, keys, k + 1, c - 1);
      } else {
        PositionIsHigher(gs, keys, k + 1, c);
      }
    }
  }
}
