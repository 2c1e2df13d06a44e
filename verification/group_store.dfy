/** The group table and its transactions: whatever they admit can be listed. */
module GroupStores {
  import opened Basics
  import opened GroupPages

  datatype Reply = Done | InvalidGroup | LimitExceeded | Conflict | NotFound

  /** The groups in the order of their folded names, which are unique. */
  predicate Sorted(gs: seq<Group>) {
    forall j, k :: 0 <= j < k < |gs| ==> gs[j].key < gs[k].key
  }

  predicate NameTaken(gs: seq<Group>, key: int) {
    exists k :: 0 <= k < |gs| && gs[k].key == key
  }

  function Insert(gs: seq<Group>, g: Group): (r: seq<Group>)
    ensures |r| == |gs| + 1 && forall x :: x in r <==> x in gs || x == g
  {
    if gs == [] || g.key < gs[0].key then [g] + gs else [gs[0]] + Insert(gs[1..], g)
  }

  lemma {:induction false} InsertSorts(gs: seq<Group>, g: Group)
    requires Sorted(gs) && !NameTaken(gs, g.key)
    ensures Sorted(Insert(gs, g))
  {
    if gs != [] && g.key > gs[0].key {
      forall x | x in Insert(gs[1..], g)
        ensures gs[0].key < x.key
      {
        if x in gs[1..] {
          var k :| 0 <= k < |gs[1..]| && gs[1..][k] == x;
        }
      }
      assert !NameTaken(gs[1..], g.key) by {
        assert forall k :: 0 <= k < |gs[1..]| ==> gs[1..][k] == gs[k + 1];
      }
      InsertSorts(gs[1..], g);
      var rest := Insert(gs[1..], g);
      assert forall k :: 0 <= k < |rest| ==> rest[k] in rest;
    }
  }

  lemma {:induction false} InsertCounts(gs: seq<Group>, g: Group)
    ensures ItemCount(Insert(gs, g)) == ItemCount(gs) + |g.items|
  {
    if gs == [] || g.key < gs[0].key {
      assert ([g] + gs)[1..] == gs;
    } else {
      InsertCounts(gs[1..], g);
      assert Insert(gs, g)[1..] == Insert(gs[1..], g);
    }
  }

  function Without(gs: seq<Group>, at: nat): (r: seq<Group>)
    requires at < |gs|
    ensures |r| == |gs| - 1
  {
    gs[..at] + gs[at + 1..]
  }

  lemma {:induction false} WithoutCounts(gs: seq<Group>, at: nat)
    requires at < |gs|
    ensures ItemCount(Without(gs, at)) == ItemCount(gs) - |gs[at].items|
    decreases at
  {
    if at == 0 {
      assert Without(gs, 0) == gs[1..];
    } else {
      WithoutCounts(gs[1..], at - 1);
      assert Without(gs, at)[1..] == Without(gs[1..], at - 1);
    }
  }

  ghost predicate WithinLimits(gs: seq<Group>) {
    AllAdmitted(gs) && Sorted(gs) && ItemCount(gs) <= MAX_TOTAL_ITEMS
  }

  /** What `_check_limits` and the update's checks demand of one more group. */
  predicate Room(gs: seq<Group>, g: Group) {
    |gs| + 1 <= MAX_GROUPS && |g.items| <= MAX_ITEMS_PER_GROUP && ItemCount(gs) + |g.items| <= MAX_TOTAL_ITEMS && BoundChecked(g)
  }

  lemma InsertKeepsLimits(gs: seq<Group>, g: Group)
    requires WithinLimits(gs) && GroupOk(g) && Room(gs, g) && !NameTaken(gs, g.key)
    ensures WithinLimits(Insert(gs, g))
  {
    InsertSorts(gs, g);
    InsertCounts(gs, g);
    var after := Insert(gs, g);
    hide Sorted, GroupOk, BoundChecked, Insert;
    forall k | 0 <= k < |after|
      ensures Admitted(after[k])
    {
      assert after[k] in after;
    }
  }

  lemma WithoutKeepsLimits(gs: seq<Group>, at: nat)
    requires WithinLimits(gs) && at < |gs|
    ensures WithinLimits(Without(gs, at)) && !NameTaken(Without(gs, at), gs[at].key)
  {
    WithoutCounts(gs, at);
  }

  /** The watches of all groups, in a row. */
  function AllWatches(gs: seq<Group>): seq<Watch> {
    if gs == [] then [] else gs[0].items + AllWatches(gs[1..])
  }

  lemma {:induction false} WatchesAreCounted(gs: seq<Group>)
    ensures |AllWatches(gs)| == ItemCount(gs)
  {
    if gs != [] {
      WatchesAreCounted(gs[1..]);
    }
  }

  /** In numbers: at most 128 groups, 256 watches in one and 4,096 in all, and a group
      with a byte pair fits a page with the longest cursor. */
  lemma RoomExactly(gs: seq<Group>, g: Group)
    ensures Room(gs, g) <==>
              && |gs| < 128 && |g.items| <= 256 && |AllWatches(gs)| + |g.items| <= 4_096
              && (forall k :: 0 <= k < |g.items| && g.items[k].U16le? ==> PageBytes([g], Some(128)) <= 1_044_480)
  {
    WatchesAreCounted(gs);
    hide PageBytes;
  }

  class GroupTable {
    var groups: seq<Group>

    constructor ()
      ensures groups == [] && WithinLimits(groups)
    {
      groups := [];
    }

    /** `create_group`: validity, limits, then the unique name. */
    method CreateGroup(g: Group) returns (reply: Reply)
      requires WithinLimits(groups)
      modifies this
      ensures WithinLimits(groups)
      ensures reply == if !GroupOk(g) then InvalidGroup else if !Room(old(groups), g) then LimitExceeded
                       else if NameTaken(old(groups), g.key) then Conflict else Done
      ensures groups == if reply.Done? then Insert(old(groups), g) else old(groups)
    {
      if !GroupOk(g) {
        return InvalidGroup;
      }
      if !Room(groups, g) {
        return LimitExceeded;
      }
      if NameTaken(groups, g.key) {
        return Conflict;
      }
      InsertKeepsLimits(groups, g);
      groups := Insert(groups, g);
      return Done;
    }

    /** `update_group` of the group at `at`, when there is one and its revision is the
        expected one. The group keeps its id and its revision rises by one. */
    method UpdateGroup(at: nat, expected: nat, g: Group) returns (reply: Reply)
      requires WithinLimits(groups)
      requires at < |groups| ==> g.id == groups[at].id && g.revision == groups[at].revision + 1
      modifies this
      ensures WithinLimits(groups)
      ensures reply == if at >= |old(groups)| then NotFound
                       else if old(groups)[at].revision != expected then Conflict
                       else if !GroupOk(g) then InvalidGroup
                       else if !Room(Without(old(groups), at), g) then LimitExceeded
                       else if NameTaken(Without(old(groups), at), g.key) then Conflict else Done
      ensures groups == if reply.Done? then Insert(Without(old(groups), at), g) else old(groups)
    {
      if at >= |groups| {
        return NotFound;
      }
      if groups[at].revision != expected {
        return Conflict;
      }
      if !GroupOk(g) {
        return InvalidGroup;
      }
      WithoutKeepsLimits(groups, at);
      var others := Without(groups, at);
      if !Room(others, g) {
        return LimitExceeded;
      }
      if NameTaken(others, g.key) {
        return Conflict;
      }
      InsertKeepsLimits(others, g);
      groups := Insert(others, g);
      return Done;
    }

    method DeleteGroup(at: nat, expected: nat) returns (reply: Reply)
      requires WithinLimits(groups)
      modifies this
      ensures WithinLimits(groups)
      ensures reply == if at >= |old(groups)| then NotFound else if old(groups)[at].revision != expected then Conflict else Done
      ensures groups == if reply.Done? then Without(old(groups), at) else old(groups)
    {
      if at >= |groups| {
        return NotFound;
      }
      if groups[at].revision != expected {
        return Conflict;
      }
      WithoutKeepsLimits(groups, at);
      groups := Without(groups, at);
      return Done;
    }

    /** `import_groups`, after the document was parsed: all of its groups or none. */
    method ImportGroups(additions: seq<Group>) returns (reply: Reply)
      requires WithinLimits(groups)
      modifies this
      ensures WithinLimits(groups)
      ensures reply == if !AllOk(additions) then InvalidGroup
                       else if !RoomForAll(old(groups), additions) then LimitExceeded
                       else if exists k :: 0 <= k < |additions| && NameTaken(old(groups), additions[k].key) then Conflict
                       else Done
      ensures groups == if reply.Done? then InsertAll(old(groups), additions) else old(groups)
    {
      if !AllOk(additions) {
        return InvalidGroup;
      }
      if !RoomForAll(groups, additions) {
        return LimitExceeded;
      }
      if exists k :: 0 <= k < |additions| && NameTaken(groups, additions[k].key) {
        return Conflict;
      }
      InsertAllKeepsLimits(groups, additions);
      groups := InsertAll(groups, additions);
      return Done;
    }
  }

  predicate DistinctNames(gs: seq<Group>) {
    forall j, k :: 0 <= j < k < |gs| ==> gs[j].key != gs[k].key
  }

  /** Groups that are valid by themselves, with distinct names. */
  predicate AllOk(gs: seq<Group>) {
    DistinctNames(gs) && forall k :: 0 <= k < |gs| ==> GroupOk(gs[k])
  }

  predicate RoomForAll(gs: seq<Group>, additions: seq<Group>) {
    && |gs| + |additions| <= MAX_GROUPS && ItemCount(gs) + ItemCount(additions) <= MAX_TOTAL_ITEMS
    && forall k :: 0 <= k < |additions| ==> |additions[k].items| <= MAX_ITEMS_PER_GROUP && BoundChecked(additions[k])
  }

  function InsertAll(gs: seq<Group>, additions: seq<Group>): seq<Group>
    decreases |additions|
  {
    if additions == [] then gs else InsertAll(Insert(gs, additions[0]), additions[1..])
  }

  lemma {:induction false} InsertAllKeepsLimits(gs: seq<Group>, additions: seq<Group>)
    requires WithinLimits(gs) && DistinctNames(additions) && RoomForAll(gs, additions)
    requires forall k :: 0 <= k < |additions| ==> GroupOk(additions[k]) && !NameTaken(gs, additions[k].key)
    ensures WithinLimits(InsertAll(gs, additions))
    decreases |additions|
  {
    if additions != [] {
      var g, rest := additions[0], additions[1..];
      hide GroupOk, BoundChecked;
      InsertKeepsLimits(gs, g);
      InsertCounts(gs, g);
      assert forall k :: 0 <= k < |rest| ==> rest[k] == additions[k + 1];
      forall k | 0 <= k < |rest|
        ensures !NameTaken(Insert(gs, g), rest[k].key)
      {
        StillFree(gs, g, rest[k].key);
      }
      hide WithinLimits, NameTaken, Insert;
      InsertAllKeepsLimits(Insert(gs, g), rest);
    }
  }

  /** An import adds exactly its groups. */
  lemma {:induction false} InsertAllAdds(gs: seq<Group>, additions: seq<Group>)
    ensures multiset(InsertAll(gs, additions)) == multiset(gs) + multiset(additions)
    decreases |additions|
  {
    if additions != [] {
      InsertAdds(gs, additions[0]);
      hide Insert;
      assert additions == [additions[0]] + additions[1..];
      InsertAllAdds(Insert(gs, additions[0]), additions[1..]);
    }
  }

  lemma {:induction false} InsertAdds(gs: seq<Group>, g: Group)
    ensures multiset(Insert(gs, g)) == multiset(gs) + multiset{g}
  {
    if gs != [] && g.key >= gs[0].key {
      InsertAdds(gs[1..], g);
      assert gs == [gs[0]] + gs[1..];
    }
  }

  lemma StillFree(gs: seq<Group>, g: Group, key: int)
    requires !NameTaken(gs, key) && g.key != key
    ensures !NameTaken(Insert(gs, g), key)
  {
    forall x | x in Insert(gs, g)
      ensures x.key != key
    {
      if x in gs {
        var k :| 0 <= k < |gs| && gs[k] == x;
      }
    }
  }
}
