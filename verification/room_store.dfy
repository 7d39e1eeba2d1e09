/**
 The calls on the shared store as the controller and the media nodes make them, one command after
 the other: a call that nobody interrupts, and one pass of the cleaner.
 */
module RoomStore {
  import opened NodeKeys
  import opened RoomProtocol

  datatype Answer = Node(id: string) | NoConnection | NoSFU

  class Redis {
    var store: Store

    constructor ()
      ensures store == Store(map[], map[], {}, Rtsp(map[], map[]))
    {
      store := Store(map[], map[], {}, Rtsp(map[], map[]));
    }

    method Get(key: string) returns (value: string)
      ensures value == Read(store, key)
    {
      value := if key in store.rooms then store.rooms[key] else "";
    }

    method SetNX(key: string, value: string) returns (ok: bool)
      modifies this
      ensures ok <==> key !in old(store).rooms
      ensures store == if ok then old(store).(rooms := old(store).rooms[key := value]) else old(store)
    {
      ok := key !in store.rooms;
      if ok {
        store := store.(rooms := store.rooms[key := value]);
      }
    }

    method SAdd(key: string, member: string)
      modifies this
      ensures store == old(store).(sets := old(store).sets[key := SetAt(old(store), key) + {member}])
    {
      store := store.(sets := store.sets[key := SetAt(store, key) + {member}]);
    }

    method SRem(key: string, member: string)
      modifies this
      ensures store == old(store).(sets := old(store).sets[key := SetAt(old(store), key) - {member}])
    {
      store := store.(sets := store.sets[key := SetAt(store, key) - {member}]);
    }

    method Del(key: string)
      modifies this
      ensures store == old(store).(rooms := old(store).rooms - {key})
    {
      store := store.(rooms := store.rooms - {key});
    }
  }

  /** SMembers: the members of a set, in some order. */
  method ListOf(members: set<string>) returns (list: seq<string>)
    ensures forall x :: x in list <==> x in members
  {
    list := [];
    var rest := members;
    while rest != {}
      invariant rest <= members && forall x :: x in list <==> x in members - rest
      decreases rest
    {
      var x :| x in rest;
      rest := rest - {x};
      list := list + [x];
    }
  }

  /** GetNodesOfService. */
  method GetNodesOfService(r: Redis, service: string) returns (ids: seq<string>)
    ensures forall c :: c in ids <==> c in r.store.connections && IsServiceNode(service, c)
  {
    var connections := ListOf(r.store.connections);
    ids := [];
    for i := 0 to |connections|
      invariant forall c :: c in ids <==> c in connections[..i] && IsServiceNode(service, c)
    {
      if IsServiceNode(service, connections[i]) {
        ids := ids + [connections[i]];
      }
      assert connections[..i + 1] == connections[..i] + [connections[i]];
    }
    assert connections[..|connections|] == connections;
  }

  /**
   A call that is not interrupted: the node that the room has, or else any media node, which the
   room has afterwards and which lists the room. `random` stands for the random number.
   */
  method SetOrGetSFUAddressForRoom(r: Redis?, room: string, random: nat) returns (answer: Answer)
    modifies r
    ensures answer == NoConnection <==> r == null
    ensures r != null ==>
              var was, key := old(r.store), BuildRoomKey(room);
              if Read(was, key) != "" then answer == Node(Read(was, key)) && r.store == was
              else if forall c :: c in was.connections ==> !IsServiceNode(SERVICE_SFU, c)
              then answer == NoSFU && r.store == was
              else if key in was.rooms then answer == Node("") && r.store == was
              else exists c :: c in was.connections && IsServiceNode(SERVICE_SFU, c)
                     && answer == Node(GetNodeID(c)) && r.store == AfterSAdd(AfterSetNX(was, room, c).0, room, c)
  {
    if r == null {
      return NoConnection;
    }
    var key := BuildRoomKey(room);
    var node := r.Get(key);
    if node == "" {
      var ids := GetNodesOfService(r, SERVICE_SFU);
      if |ids| == 0 {
        assert forall c :: c in r.store.connections && IsServiceNode(SERVICE_SFU, c) ==> c in ids;
        return NoSFU;
      }
      var connection := ids[random % |ids|];
      assert connection in ids;
      node := GetNodeID(connection);
      var ok := r.SetNX(key, node);
      if !ok {
        node := r.Get(key);
      } else {
        r.SAdd(BuildRoomSetKeyOfService(connection), key);
      }
    }
    answer := Node(node);
  }

  /** RemoveRoom. */
  method RemoveRoom(r: Redis?, node: string, room: string) returns (ok: bool)
    modifies r
    ensures ok <==> r != null
    ensures ok ==> r.store == Removed(old(r.store), node, room)
  {
    if r == null {
      return false;
    }
    var key := BuildRoomKey(room);
    r.Del(key);
    r.SRem(BuildRoomSetKeyOfService(BuildKeepAliveServiceKey(SERVICE_SFU, node)), key);
    ok := true;
  }

  /** The deletions that a cleaner pass has queued; their order plays no part. */
  datatype Pipeline = Pipeline(rooms: set<string>, sets: set<string>, connections: set<string>,
                               streams: set<string>, streamSets: set<string>)

  function Exec(s: Store, p: Pipeline): Store {
    Store(s.rooms - p.rooms, s.sets - p.sets, s.connections - p.connections,
          Rtsp(s.rtsp.holders - p.streams, s.rtsp.sets - p.streamSets))
  }

  /** What a pass queues for some dead connections. */
  ghost function QueueFor(s: Store, dead: set<string>): Pipeline {
    Pipeline(Doomed(s, dead), DoomedSets(dead), dead, DoomedStreams(s.rtsp, dead), DoomedStreamSets(dead))
  }

  /** One pass of StartCleaner: `ttl` is the remaining time to live of a connection's key. */
  method CleanerPass(r: Redis, ttl: string -> int)
    modifies r
    ensures r.store == Cleaned(old(r.store), set c | c in old(r.store).connections && ttl(c) <= 0)
  {
    var connections := ListOf(r.store.connections);
    var pipeline := Pipeline({}, {}, {}, {}, {});
    ghost var dead := {};
    for i := 0 to |connections|
      invariant dead == set c | c in connections[..i] && ttl(c) <= 0
      invariant pipeline == QueueFor(r.store, dead)
      invariant r.store == old(r.store)
    {
      var c := connections[i];
      assert connections[..i + 1] == connections[..i] + [c];
      if ttl(c) > 0 {
        continue;
      }
      pipeline := QueueConnection(r, pipeline, c, dead);
      dead := dead + {c};
    }
    assert connections[..|connections|] == connections;
    r.store := Exec(r.store, pipeline);
  }

  /** What the pass queues for one dead connection. */
  method QueueConnection(r: Redis, p: Pipeline, c: string, ghost dead: set<string>) returns (q: Pipeline)
    requires p == QueueFor(r.store, dead)
    ensures q == QueueFor(r.store, dead + {c})
  {
    q := p;
    if IsServiceNode(SERVICE_SFU, c) {
      var key := BuildRoomSetKeyOfService(c);
      q := q.(rooms := q.rooms + SetAt(r.store, key), sets := q.sets + {key});
    }
    if IsServiceNode(SERVICE_CONTROLLER, c) {
      var held := HeldStreams(r, c);
      q := q.(streams := q.streams + held, streamSets := q.streamSets + {BuildRTSPConnectionSetKey(c)});
    }
    q := q.(connections := q.connections + {c});
    MoreRooms(r.store, dead, c);
    MoreStreams(r.store.rtsp, dead, c);
  }

  /** The RTSP connections in a controller's set that still name it as their holder. */
  method HeldStreams(r: Redis, c: string) returns (held: set<string>)
    ensures held == set k | k in Streams(r.store.rtsp, c) && Streaming(r.store.rtsp, k, c)
  {
    var keys := ListOf(Streams(r.store.rtsp, c));
    held := {};
    for i := 0 to |keys|
      invariant held == set k | k in keys[..i] && Streaming(r.store.rtsp, k, c)
    {
      var holder := if keys[i] in r.store.rtsp.holders then r.store.rtsp.holders[keys[i]] else "";
      if holder == GetNodeID(c) {
        held := held + {keys[i]};
      }
      assert keys[..i + 1] == keys[..i] + [keys[i]];
    }
    assert keys[..|keys|] == keys;
  }

  lemma MoreRooms(s: Store, dead: set<string>, c: string)
    ensures Doomed(s, dead + {c}) == Doomed(s, dead) + if IsServiceNode(SERVICE_SFU, c) then RoomsOf(s, c) else {}
    ensures DoomedSets(dead + {c}) == DoomedSets(dead)
            + if IsServiceNode(SERVICE_SFU, c) then {BuildRoomSetKeyOfService(c)} else {}
  {}

  lemma MoreStreams(r: Rtsp, dead: set<string>, c: string)
    ensures DoomedStreams(r, dead + {c}) == DoomedStreams(r, dead) +
              if IsServiceNode(SERVICE_CONTROLLER, c) then set k | k in Streams(r, c) && Streaming(r, k, c) else {}
    ensures DoomedStreamSets(dead + {c}) == DoomedStreamSets(dead) +
              if IsServiceNode(SERVICE_CONTROLLER, c) then {BuildRTSPConnectionSetKey(c)} else {}
  {}
}
