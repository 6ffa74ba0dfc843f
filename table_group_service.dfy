/** The grouping rules of `TableGroupService`: several tables are joined into one group for
    joint billing, and a group is dissolved again once no member table has unfinished orders. */
module TableGroupServices {
  import opened Wrappers
  import opened Collections
  import opened Domain

  /** A table that may join a group: it is empty and belongs to no group yet. */
  predicate Groupable(table: OrderTable)
  {
    table.empty && table.tableGroupId.None?
  }

  /** The creation guards, in this order: the table list is neither null nor shorter than 2;
      the tables found for the ids are as many as the ids; every table found is empty and
      ungrouped. `None` when all pass. Because the lookup finds each existing id once, the
      count guard passes exactly when the ids are distinct and all exist; so a request is
      accepted exactly when it names at least two distinct tables, all existing, empty and
      ungrouped. */
  function GroupGuard(tables: map<int, OrderTable>, request: Option<seq<int>>): (r: Option<Failure>)
    ensures r == Some(InsufficientTables) <==> request.None? || |request.value| < 2
    ensures r == Some(TableNotFound) <==>
      request.Some? && |request.value| >= 2 &&
      !(Distinct(request.value) && forall i :: 0 <= i < |request.value| ==> request.value[i] in tables)
    ensures r == Some(TableNotGroupable) <==>
      request.Some? && |request.value| >= 2 && Distinct(request.value) &&
      (forall i :: 0 <= i < |request.value| ==> request.value[i] in tables) &&
      exists i :: 0 <= i < |request.value| && !Groupable(tables[request.value[i]])
    ensures r == None <==>
      request.Some? && |request.value| >= 2 && Distinct(request.value) &&
      forall i :: 0 <= i < |request.value| ==> request.value[i] in tables && Groupable(tables[request.value[i]])
  {
    if request.None? || |request.value| < 2 then Some(InsufficientTables)
    else
      var ids := request.value;
      assert (forall i :: 0 <= i < |ids| ==> ids[i] in tables) ==> forall x :: x in ids ==> x in tables.Keys;
      if |ids| != CountIn(ids, tables.Keys) then Some(TableNotFound)
      else if exists i :: 0 <= i < |ids| && !Groupable(tables[ids[i]]) then Some(TableNotGroupable)
      else None
  }

  /** A request naming a missing table, or a table that is occupied or already grouped, is
      refused: whether the lookup drops the table or the availability check catches it,
      creation fails. */
  lemma UnavailableTableRejected(tables: map<int, OrderTable>, ids: seq<int>, i: int)
    requires 0 <= i < |ids|
    requires ids[i] !in tables || !Groupable(tables[ids[i]])
    ensures GroupGuard(tables, Some(ids)) != None
  {
  }

  /** Two distinct tables that exist, are empty and are in no group can be grouped, as in
      the fixtures; adding the occupied third fixture table makes the request fail. */
  lemma FixtureGroupable(tables: map<int, OrderTable>)
    requires 1 in tables && tables[1].empty && tables[1].tableGroupId.None?
    requires 2 in tables && tables[2].empty && tables[2].tableGroupId.None?
    requires 3 in tables && !tables[3].empty
    ensures GroupGuard(tables, Some([1, 2])) == None
    ensures GroupGuard(tables, Some([1, 2, 3])) == Some(TableNotGroupable)
  {
  }

  /** Every table of an accepted request exists. */
  lemma AcceptedTablesExist(tables: map<int, OrderTable>, ids: seq<int>)
    requires GroupGuard(tables, Some(ids)) == None
    ensures Elements(ids) <= tables.Keys
    ensures forall i :: 0 <= i < |ids| ==> ids[i] in tables
  {
  }

  /** The ids of the tables that belong to group `groupId`. */
  function Members(tables: map<int, OrderTable>, groupId: int): (r: set<int>)
    ensures r <= tables.Keys
    ensures forall id :: id in tables ==> (id in r <==> tables[id].tableGroupId == Some(groupId))
  {
    set id | id in tables && tables[id].tableGroupId == Some(groupId)
  }

  /** The tables after grouping: each table of `ids` joins group `groupId` and is no longer
      empty; every other table is as it was. */
  function Grouped(tables: map<int, OrderTable>, ids: set<int>, groupId: int): (r: map<int, OrderTable>)
  {
    map id | id in tables :: if id in ids then tables[id].(tableGroupId := Some(groupId), empty := false) else tables[id]
  }

  /** The tables after ungrouping: the members of group `groupId` leave it and keep their
      emptiness; every other table is as it was. */
  function Ungrouped(tables: map<int, OrderTable>, groupId: int): (r: map<int, OrderTable>)
  {
    map id | id in tables :: if tables[id].tableGroupId == Some(groupId) then tables[id].(tableGroupId := None) else tables[id]
  }

  /** The tables with those of `ids` taken out of whatever group they were in. */
  function Cleared(tables: map<int, OrderTable>, ids: set<int>): map<int, OrderTable>
  {
    map id | id in tables :: if id in ids then tables[id].(tableGroupId := None) else tables[id]
  }

  lemma ClearedStep(tables: map<int, OrderTable>, members: set<int>, remaining: set<int>, next: int)
    requires next in tables && next in remaining && remaining <= members
    ensures Cleared(tables, members - (remaining - {next})) ==
      Cleared(tables, members - remaining)[next := tables[next].(tableGroupId := None)]
  {
  }

  lemma GroupedStep(tables: map<int, OrderTable>, done: set<int>, next: int, groupId: int)
    requires next in tables
    ensures Grouped(tables, done + {next}, groupId) ==
      Grouped(tables, done, groupId)[next := tables[next].(tableGroupId := Some(groupId), empty := false)]
  {
  }

  /** Ungrouping takes exactly the current members out of the group. */
  lemma UngroupedIsClearedMembers(tables: map<int, OrderTable>, groupId: int)
    ensures Ungrouped(tables, groupId) == Cleared(tables, Members(tables, groupId))
  {
  }

  /** Grouping gives the new group exactly the requested tables, provided they all exist and
      the group id was not in use. */
  lemma GroupedMembers(tables: map<int, OrderTable>, ids: set<int>, groupId: int)
    requires ids <= tables.Keys
    requires Members(tables, groupId) == {}
    ensures Members(Grouped(tables, ids, groupId), groupId) == ids
  {
  }

  /** After ungrouping no table belongs to the group, and no table's emptiness or seating changed. */
  lemma UngroupedLeavesNoMember(tables: map<int, OrderTable>, groupId: int)
    ensures Members(Ungrouped(tables, groupId), groupId) == {}
    ensures Ungrouped(tables, groupId).Keys == tables.Keys
    ensures forall id :: id in tables ==>
      Ungrouped(tables, groupId)[id] == tables[id].(tableGroupId := Ungrouped(tables, groupId)[id].tableGroupId)
  {
  }

  /** Grouping tables that pass the guard under an unused id and then ungrouping them gives
      back every table as it was, except that the members are no longer empty: ungrouping
      does not release the seats. */
  lemma UngroupAfterGroup(tables: map<int, OrderTable>, ids: seq<int>, groupId: int)
    requires GroupGuard(tables, Some(ids)) == None
    requires Members(tables, groupId) == {}
    ensures Ungrouped(Grouped(tables, Elements(ids), groupId), groupId) ==
      map id | id in tables :: if id in ids then tables[id].(empty := false) else tables[id]
  {
  }

  /** Every table sits under its own id and refers to no group id from `bound` on. */
  predicate TablesBelow(tables: map<int, OrderTable>, bound: int)
  {
    forall id :: id in tables ==>
      tables[id].id == id && (tables[id].tableGroupId.Some? ==> tables[id].tableGroupId.value < bound)
  }

  /** Every group sits under its own id, below `bound`. */
  predicate GroupsBelow(groups: map<int, TableGroup>, bound: int)
  {
    forall id :: id in groups ==> groups[id].id == id && id < bound
  }

  /** A group id no table refers to yet has no members. */
  lemma UnusedGroupHasNoMembers(tables: map<int, OrderTable>, bound: int)
    requires TablesBelow(tables, bound)
    ensures Members(tables, bound) == {}
  {
    forall id | id in tables ensures tables[id].tableGroupId != Some(bound) {
    }
  }

  lemma GroupedStaysBelow(tables: map<int, OrderTable>, ids: set<int>, groupId: int)
    requires TablesBelow(tables, groupId)
    ensures TablesBelow(Grouped(tables, ids, groupId), groupId + 1)
  {
  }

  lemma UngroupedStaysBelow(tables: map<int, OrderTable>, groupId: int, bound: int)
    requires TablesBelow(tables, bound)
    ensures TablesBelow(Ungrouped(tables, groupId), bound)
  {
  }

  /** The query `existsByOrderTableIdInAndOrderStatusIn(tableIds, [COOKING, MEAL])`. Since
      every order is COOKING, MEAL or COMPLETION, it holds exactly when some order at those
      tables is not yet completed: a group whose tables hold only completed orders, or none
      at all, may be dissolved. */
  predicate HasActiveOrder(orders: map<int, Order>, tableIds: set<int>)
    ensures HasActiveOrder(orders, tableIds) <==>
      exists id :: id in orders && orders[id].orderTableId in tableIds && orders[id].status != COMPLETION
  {
    assert forall s: Status :: s in ACTIVE_STATUSES <==> s != COMPLETION;
    exists id :: id in orders && orders[id].orderTableId in tableIds && orders[id].status in ACTIVE_STATUSES
  }

  /** A group whose member tables hold only completed orders, or none at all, has no active
      order to block its ungrouping. */
  lemma CompletedOrdersAllowUngroup(tables: map<int, OrderTable>, orders: map<int, Order>, groupId: int)
    requires forall id :: id in orders && orders[id].orderTableId in Members(tables, groupId) ==>
      orders[id].status == COMPLETION
    ensures !HasActiveOrder(orders, Members(tables, groupId))
  {
  }

  class TableGroupService {
    var tables: map<int, OrderTable>
    /** The order store, read only to look for unfinished orders. */
    var orders: map<int, Order>
    var groups: map<int, TableGroup>
    /** The id the group store gives the next saved group. */
    var nextGroupId: int

    /** Every table and group sits under its own id, and every group id in use, by a group
        or by a table, is below the next id to be handed out. */
    ghost predicate Valid()
      reads this
    {
      1 <= nextGroupId && TablesBelow(tables, nextGroupId) && GroupsBelow(groups, nextGroupId)
    }

    constructor (tables: map<int, OrderTable>, orders: map<int, Order>)
      requires forall id :: id in tables ==> tables[id].id == id && tables[id].tableGroupId.None?
      ensures Valid()
      ensures this.tables == tables && this.orders == orders && groups == map[] && nextGroupId == 1
    {
      this.tables := tables;
      this.orders := orders;
      groups := map[];
      nextGroupId := 1;
    }

    /** `create`: runs the guards; on success saves a new group and, table by table, puts each
        requested table into it and marks it occupied. A refused request changes nothing. */
    method Create(request: Option<seq<int>>) returns (r: Result<TableGroup, Failure>)
      requires Valid()
      modifies this
      ensures Valid()
      ensures orders == old(orders)
      ensures GroupGuard(old(tables), request).Some? ==>
        r == Failure(GroupGuard(old(tables), request).value) &&
        tables == old(tables) && groups == old(groups) && nextGroupId == old(nextGroupId)
      ensures GroupGuard(old(tables), request).None? ==>
        r == Success(TableGroup(old(nextGroupId), request.value)) &&
        old(nextGroupId) !in old(groups) &&
        groups == old(groups)[old(nextGroupId) := r.value] &&
        nextGroupId == old(nextGroupId) + 1 &&
        tables == Grouped(old(tables), Elements(request.value), old(nextGroupId)) &&
        Members(tables, r.value.id) == Elements(request.value)
    {
      var guard := GroupGuard(tables, request);
      if guard.Some? {
        return Failure(guard.value);
      }
      var ids := request.value;
      AcceptedTablesExist(tables, ids);
      var groupId := nextGroupId;
      var group := TableGroup(groupId, ids);
      var before := tables;
      UnusedGroupHasNoMembers(before, groupId);
      var saved := JoinGroup(before, ids, groupId);
      GroupedMembers(before, Elements(ids), groupId);
      GroupedStaysBelow(before, Elements(ids), groupId);
      groups := groups[groupId := group];
      nextGroupId := nextGroupId + 1;
      tables := saved;
      r := Success(group);
    }

    /** `ungroup`: refused while any member table has a COOKING or MEAL order; otherwise each
        member table, one at a time, leaves the group. Emptiness is left alone and the group
        record itself stays in the store. */
    method Ungroup(groupId: int) returns (r: Outcome<Failure>)
      requires Valid()
      modifies this
      ensures Valid()
      ensures orders == old(orders) && groups == old(groups) && nextGroupId == old(nextGroupId)
      ensures HasActiveOrder(orders, Members(old(tables), groupId)) ==>
        r == Fail(ActiveOrderExists) && tables == old(tables)
      ensures !HasActiveOrder(orders, Members(old(tables), groupId)) ==>
        r == Pass && tables == Ungrouped(old(tables), groupId)
    {
      var members := Members(tables, groupId);
      if HasActiveOrder(orders, members) {
        return Fail(ActiveOrderExists);
      }
      var saved := LeaveGroup(tables, members);
      UngroupedIsClearedMembers(tables, groupId);
      UngroupedStaysBelow(tables, groupId, nextGroupId);
      tables := saved;
      r := Pass;
    }

    /** Saves the requested tables one at a time, each put into group `groupId` and occupied. */
    static method JoinGroup(tables: map<int, OrderTable>, ids: seq<int>, groupId: int)
      returns (saved: map<int, OrderTable>)
      requires forall i :: 0 <= i < |ids| ==> ids[i] in tables
      ensures saved == Grouped(tables, Elements(ids), groupId)
    {
      saved := tables;
      assert Elements(ids[..0]) == {};
      assert Grouped(tables, {}, groupId) == tables;
      for i := 0 to |ids|
        invariant saved == Grouped(tables, Elements(ids[..i]), groupId)
      {
        assert Elements(ids[..i + 1]) == Elements(ids[..i]) + {ids[i]};
        GroupedStep(tables, Elements(ids[..i]), ids[i], groupId);
        saved := saved[ids[i] := tables[ids[i]].(tableGroupId := Some(groupId), empty := false)];
      }
      assert ids[..|ids|] == ids;
    }

    /** Saves the member tables one at a time, each with its group cleared. */
    static method LeaveGroup(tables: map<int, OrderTable>, members: set<int>)
      returns (saved: map<int, OrderTable>)
      requires members <= tables.Keys
      ensures saved == Cleared(tables, members)
    {
      saved := tables;
      var remaining := members;
      while remaining != {}
        invariant remaining <= members
        invariant saved == Cleared(tables, members - remaining)
        decreases remaining
      {
        var member := Pick(remaining);
        ClearedStep(tables, members, remaining, member);
        saved := saved[member := tables[member].(tableGroupId := None)];
        remaining := remaining - {member};
      }
      assert members - remaining == members;
    }
  }
}
