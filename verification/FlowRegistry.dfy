/** The flows a group has open right now, as a reader sees and ends them
    (crates/nexapipe-client/src/flow.rs, `FlowRegistry`). */
module FlowRegistry {
  class FlowEntry {
    const id: nat
    const node: string
    var sent: nat
    var received: nat
    var cancelled: bool

    constructor (id: nat, node: string)
      ensures this.id == id && this.node == node
      ensures sent == 0 && received == 0 && !cancelled
    {
      this.id, this.node := id, node;
      sent, received, cancelled := 0, 0, false;
    }

    function View(): FlowView
      reads this
    {
      FlowView(id, node, sent, received)
    }
  }

  /** One open flow, copied out. */
  datatype FlowView = FlowView(id: nat, node: string, sent: nat, received: nat)

  function Ids(views: seq<FlowView>): seq<nat> {
    seq(|views|, i requires 0 <= i < |views| => views[i].id)
  }

  /** `ids` is ascending, and holds the lowest of `all`: as many as `limit` allows. */
  ghost predicate AreLowest(ids: seq<nat>, all: set<nat>, limit: nat) {
    && |ids| == (if limit < |all| then limit else |all|)
    && (forall i :: 0 <= i < |ids| ==> ids[i] in all)
    && (forall i, j :: 0 <= i < j < |ids| ==> ids[i] < ids[j])
    && (forall i, id :: 0 <= i < |ids| && id in all && id !in ids ==> ids[i] < id)
  }

  lemma TruncatedAreLowest(ids: seq<nat>, all: set<nat>, limit: nat)
    requires |ids| == |all| && forall id :: id in ids <==> id in all
    requires forall i, j :: 0 <= i < j < |ids| ==> ids[i] < ids[j]
    ensures AreLowest(if limit < |ids| then ids[..limit] else ids, all, limit)
  {
    if limit < |ids| {
      forall i, id | 0 <= i < limit && id in all && id !in ids[..limit] ensures ids[i] < id {
        var k :| 0 <= k < |ids| && ids[k] == id;
      }
    }
  }

  class Registry {
    var next: nat
    var entries: map<nat, FlowEntry>

    ghost predicate Valid()
      reads this
    {
      forall id :: id in entries ==> entries[id].id == id && 1 <= id <= next
    }

    constructor ()
      ensures Valid() && next == 0 && entries == map[]
    {
      next, entries := 0, map[];
    }

    /** A new flow gets an id no flow of this registry has had. */
    method Open(node: string) returns (entry: FlowEntry)
      requires Valid()
      modifies this
      ensures Valid() && fresh(entry)
      ensures next == old(next) + 1 && entry.id == next && entry.id !in old(entries)
      ensures entry.node == node && entry.sent == 0 && entry.received == 0 && !entry.cancelled
      ensures entries == old(entries)[entry.id := entry]
    {
      next := next + 1;
      entry := new FlowEntry(next, node);
      entries := entries[next := entry];
    }

    method Remove(id: nat)
      requires Valid()
      modifies this`entries
      ensures Valid() && entries == old(entries) - {id}
    {
      entries := entries - {id};
    }

    /** At most `limit` of the open flows: the lowest ids, in ascending order. */
    method View(limit: nat) returns (views: seq<FlowView>)
      requires Valid()
      ensures AreLowest(Ids(views), entries.Keys, limit)
      ensures forall i :: 0 <= i < |views| ==>
        && views[i].id in entries && views[i].node == entries[views[i].id].node
        && views[i].sent == entries[views[i].id].sent && views[i].received == entries[views[i].id].received
    {
      var ids := Ascending(entries.Keys);
      TruncatedAreLowest(ids, entries.Keys, limit);
      hide AreLowest;
      var shown := if limit < |ids| then ids[..limit] else ids;
      views := [];
      for i := 0 to |shown|
        invariant |views| == i
        invariant forall j :: 0 <= j < i ==> shown[j] in entries && views[j] == entries[shown[j]].View()
      {
        assert shown[i] == ids[i];
        views := views + [entries[shown[i]].View()];
      }
      assert Ids(views) == shown;
    }

    /** Asks one flow to end. Nothing is removed here. */
    method Close(id: nat) returns (found: bool)
      requires Valid()
      modifies entries.Values
      ensures found <==> id in entries
      ensures found ==> entries[id].cancelled
      ensures forall e :: e in entries.Values && e.id != id ==> e.cancelled == old(e.cancelled)
      ensures forall e :: e in entries.Values ==> e.sent == old(e.sent) && e.received == old(e.received)
    {
      if id !in entries {
        return false;
      }
      entries[id].cancelled := true;
      found := true;
    }

    ghost function FlowsOf(node: string): set<nat>
      reads this
    {
      set id | id in entries && entries[id].node == node
    }

    /** Asks every flow of a node to end, and says how many were asked. */
    method CloseNode(node: string) returns (asked: nat)
      requires Valid()
      modifies entries.Values
      ensures asked == |FlowsOf(node)|
      ensures forall id :: id in entries ==>
        entries[id].cancelled == (old(entries[id].cancelled) || entries[id].node == node)
      ensures forall e :: e in entries.Values ==> e.sent == old(e.sent) && e.received == old(e.received)
    {
      var matching := set id | id in entries && entries[id].node == node;
      var rest := matching;
      asked := 0;
      while rest != {}
        invariant rest <= matching && asked + |rest| == |matching|
        invariant forall id :: id in entries ==>
          entries[id].cancelled == (old(entries[id].cancelled) || id in matching - rest)
        invariant forall e :: e in entries.Values ==> e.sent == old(e.sent) && e.received == old(e.received)
      {
        var id :| id in rest;
        entries[id].cancelled := true;
        rest := rest - {id};
        asked := asked + 1;
      }
      assert matching == FlowsOf(node);
    }
  }

  /** The elements of a set of ids in ascending order. */
  method Ascending(ids: set<nat>) returns (r: seq<nat>)
    ensures |r| == |ids|
    ensures forall id :: id in r <==> id in ids
    ensures forall i, j :: 0 <= i < j < |r| ==> r[i] < r[j]
  {
    r := [];
    var rest := ids;
    while rest != {}
      invariant rest <= ids && |r| + |rest| == |ids|
      invariant forall id :: id in r <==> id in ids && id !in rest
      invariant forall i, j :: 0 <= i < j < |r| ==> r[i] < r[j]
      invariant forall i, id :: 0 <= i < |r| && id in rest ==> r[i] < id
    {
      var least := Least(rest);
      r := r + [least];
      rest := rest - {least};
    }
  }

  method Least(ids: set<nat>) returns (least: nat)
    requires ids != {}
    ensures least in ids && forall id :: id in ids ==> least <= id
  {
    least :| least in ids;
    var rest := ids - {least};
    while rest != {}
      invariant rest <= ids && least in ids
      invariant forall id :: id in ids && id !in rest ==> least <= id
    {
      var id :| id in rest;
      if id < least {
        least := id;
      }
      rest := rest - {id};
    }
  }
}
