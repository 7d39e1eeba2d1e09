/**
 How controllers agree, through a shared Redis store, on the media node of a room: the commands as
 atomic steps, the callers that are somewhere between two of them, and what holds in every run.
 */
module RoomProtocol {
  import opened NodeKeys

  /** RTSP connections and their controllers, by key, and the sets of such keys of a controller. */
  datatype Rtsp = Rtsp(holders: map<string, string>, sets: map<string, set<string>>)

  /** Rooms and their nodes, by room key; the sets of room keys of a connection, by set key; the connections. */
  datatype Store = Store(rooms: map<string, string>, sets: map<string, set<string>>, connections: set<string>,
                         rtsp: Rtsp)

  /** A key that is missing reads as "". */
  function Read(s: Store, key: string): string {
    if key in s.rooms then s.rooms[key] else ""
  }

  function SetAt(s: Store, key: string): set<string> {
    if key in s.sets then s.sets[key] else {}
  }

  /** The room keys listed for a connection. */
  function RoomsOf(s: Store, connection: string): set<string> {
    SetAt(s, BuildRoomSetKeyOfService(connection))
  }

  function WithSet(s: Store, connection: string, keys: set<string>): Store {
    s.(sets := s.sets[BuildRoomSetKeyOfService(connection) := keys])
  }

  // ---------------------------------------------------------------- commands

  /** Where a call of SetOrGetSFUAddressForRoom is. */
  datatype Caller =
    | Asking(room: string)
    | Missing(room: string)
    | Chosen(room: string, connection: string)
    | Beaten(room: string)
    | Created(room: string, connection: string)
    | Done(room: string, node: string)
    | Failed(room: string)

  function AfterGet(s: Store, room: string): Caller {
    var node := Read(s, BuildRoomKey(room));
    if node == "" then Missing(room) else Done(room, node)
  }

  function AfterSetNX(s: Store, room: string, connection: string): (Store, Caller) {
    var key := BuildRoomKey(room);
    if key in s.rooms then (s, Beaten(room))
    else (s.(rooms := s.rooms[key := GetNodeID(connection)]), Created(room, connection))
  }

  function AfterSAdd(s: Store, room: string, connection: string): Store {
    WithSet(s, connection, RoomsOf(s, connection) + {BuildRoomKey(room)})
  }

  /** RemoveRoom, whose pipeline runs as one step. */
  function Removed(s: Store, node: string, room: string): Store {
    var connection, key := BuildKeepAliveServiceKey(SERVICE_SFU, node), BuildRoomKey(room);
    WithSet(s.(rooms := s.rooms - {key}), connection, RoomsOf(s, connection) - {key})
  }

  /** The room keys that a cleaner finds in the sets of dead media nodes. */
  ghost function Doomed(s: Store, dead: set<string>): set<string> {
    set c, k | c in dead && IsServiceNode(SERVICE_SFU, c) && k in RoomsOf(s, c) :: k
  }

  ghost function DoomedSets(dead: set<string>): set<string> {
    set c | c in dead && IsServiceNode(SERVICE_SFU, c) :: BuildRoomSetKeyOfService(c)
  }

  /** The keys of RTSP connections listed for a controller, and those of them that it still holds. */
  function Streams(r: Rtsp, connection: string): set<string> {
    var key := BuildRTSPConnectionSetKey(connection);
    if key in r.sets then r.sets[key] else {}
  }

  predicate Streaming(r: Rtsp, key: string, connection: string) {
    (if key in r.holders then r.holders[key] else "") == GetNodeID(connection)
  }

  ghost function DoomedStreams(r: Rtsp, dead: set<string>): set<string> {
    set c, k | c in dead && IsServiceNode(SERVICE_CONTROLLER, c) && k in Streams(r, c) && Streaming(r, k, c) :: k
  }

  ghost function DoomedStreamSets(dead: set<string>): set<string> {
    set c | c in dead && IsServiceNode(SERVICE_CONTROLLER, c) :: BuildRTSPConnectionSetKey(c)
  }

  /** One pass of the cleaner over the connections that it finds dead. */
  ghost function Cleaned(s: Store, dead: set<string>): Store {
    Store(s.rooms - Doomed(s, dead), s.sets - DoomedSets(dead), s.connections - dead,
          Rtsp(s.rtsp.holders - DoomedStreams(s.rtsp, dead), s.rtsp.sets - DoomedStreamSets(dead)))
  }

  /**
   Unlike rooms, RTSP connections are checked before they are deleted: a pass takes one away exactly
   when it is listed for a dead controller that it names as its holder, whatever happened before.
   */
  lemma CleanerChecksStreams(s: Store, dead: set<string>, key: string)
    requires key in s.rtsp.holders
    ensures key !in Cleaned(s, dead).rtsp.holders <==>
            exists c :: c in dead && IsServiceNode(SERVICE_CONTROLLER, c) && key in Streams(s.rtsp, c)
                        && s.rtsp.holders[key] == GetNodeID(c)
  {
    if c :|
         c in dead && IsServiceNode(SERVICE_CONTROLLER, c) && key in Streams(s.rtsp, c)
         && s.rtsp.holders[key] == GetNodeID(c)
    {
      assert Streaming(s.rtsp, key, c);
    }
  }

  // ---------------------------------------------------------------- steps

  datatype World = World(store: Store, callers: seq<Caller>)

  datatype Event =
    | Call(room: string)
    | Get(i: nat)
    | Pick(i: nat, connection: string)
    | NoNode(i: nat)
    | SetNX(i: nat)
    | GetAgain(i: nat)
    | SAdd(i: nat)
    | KeepAlive(service: string, node: string)
    | Remove(node: string, room: string)
    | Clean(dead: set<string>)
    | Expire(key: string)

  ghost predicate Can(w: World, e: Event) {
    match e
    case Get(i) => i < |w.callers| && w.callers[i].Asking?
    case Pick(i, c) => i < |w.callers| && w.callers[i].Missing? && c in w.store.connections
        && IsServiceNode(SERVICE_SFU, c)
    case NoNode(i) =>
      i < |w.callers| && w.callers[i].Missing? && forall c :: c in w.store.connections ==>
          !IsServiceNode(SERVICE_SFU, c)
    case SetNX(i) => i < |w.callers| && w.callers[i].Chosen?
    case GetAgain(i) => i < |w.callers| && w.callers[i].Beaten?
    case SAdd(i) => i < |w.callers| && w.callers[i].Created?
    case KeepAlive(service, node) => ':' !in service && ':' !in node
    case Clean(dead) => dead <= w.store.connections
    case _ => true
  }

  function With(w: World, i: nat, c: Caller): World
    requires i < |w.callers|
  {
    w.(callers := w.callers[i := c])
  }

  ghost function Step(w: World, e: Event): World
    requires Can(w, e)
  {
    match e
    case Call(room) => w.(callers := w.callers + [Asking(room)])
    case Get(i) => With(w, i, AfterGet(w.store, w.callers[i].room))
    case Pick(i, c) => With(w, i, Chosen(w.callers[i].room, c))
    case NoNode(i) => With(w, i, Failed(w.callers[i].room))
    case SetNX(i) =>
      var (s, c) := AfterSetNX(w.store, w.callers[i].room, w.callers[i].connection);
      With(w.(store := s), i, c)
    case GetAgain(i) => With(w, i, Done(w.callers[i].room, Read(w.store, BuildRoomKey(w.callers[i].room))))
    case SAdd(i) =>
      var Created(room, c) := w.callers[i];
      With(w.(store := AfterSAdd(w.store, room, c)), i, Done(room, GetNodeID(c)))
    case KeepAlive(service, node) =>
      w.(store := w.store.(connections := w.store.connections + {BuildKeepAliveServiceKey(service, node)}))
    case Remove(node, room) => w.(store := Removed(w.store, node, room))
    case Clean(dead) => w.(store := Cleaned(w.store, dead))
    case Expire(key) => w.(store := w.store.(rooms := w.store.rooms - {key}))
  }

  ghost predicate Run(ws: seq<World>, es: seq<Event>) {
    && |ws| == |es| + 1 && ws[0].callers == []
    && forall i :: 0 <= i < |es| ==> Can(ws[i], es[i]) && ws[i + 1] == Step(ws[i], es[i])
  }

  /**
   The steps of a call: it returns a room's node if there is one, else it goes on to choose a
   connection, of which SETNX puts the node in if the room is still missing, and SADD then lists the
   room for the connection, beside what was listed.
   */
  lemma StepsOfACall(w: World, i: nat, room: string, c: string)
    requires i < |w.callers| && w.callers[i].room == room
    ensures var key, s := BuildRoomKey(room), w.store;
            && (w.callers[i].Asking? ==>
                  Step(w, Get(i)) == With(w, i, if key in s.rooms && s.rooms[key] != "" then Done(room, s.rooms[key])
                                                else Missing(room)))
            && (w.callers[i] == Chosen(room, c) ==>
                  Step(w, SetNX(i)) == if key in s.rooms then With(w, i, Beaten(room))
                                       else With(w.(store := s.(rooms := s.rooms[key := GetNodeID(c)])), i,
                                                 Created(room, c)))
            && (w.callers[i] == Created(room, c) ==>
                  && Step(w, SAdd(i)).callers == w.callers[i := Done(room, GetNodeID(c))]
                  && Step(w, SAdd(i)).store.rooms == s.rooms
                  && SetAt(Step(w, SAdd(i)).store, BuildRoomSetKeyOfService(c))
                     == SetAt(s, BuildRoomSetKeyOfService(c)) + {key})
            && (w.callers[i].Beaten? ==>
                  Step(w, GetAgain(i)) == With(w, i, Done(room, if key in s.rooms then s.rooms[key] else "")))
  {}

  // ---------------------------------------------------------------- what a cleaner pass leaves

  ghost predicate ListedForDead(s: Store, dead: set<string>, room: string) {
    exists c :: c in dead && IsServiceNode("sfu", c) && room in SetAt(s, BuildRoomSetKeyOfService(c))
  }

  ghost predicate SetOfDead(dead: set<string>, key: string) {
    exists c :: c in dead && IsServiceNode("sfu", c) && key == BuildRoomSetKeyOfService(c)
  }

  ghost predicate StreamSetOfDead(dead: set<string>, key: string) {
    exists c :: c in dead && IsServiceNode("controller", c) && key == BuildRTSPConnectionSetKey(c)
  }

  ghost predicate StreamOfDead(s: Store, dead: set<string>, key: string) {
    exists c :: c in dead && IsServiceNode("controller", c) && BuildRTSPConnectionSetKey(c) in s.rtsp.sets
                && key in s.rtsp.sets[BuildRTSPConnectionSetKey(c)]
                && key in s.rtsp.holders && s.rtsp.holders[key] == GetNodeID(c)
  }

  /**
   A pass takes away the rooms that the sets of dead media nodes list, these sets, the sets of dead
   controllers and all dead connections, and leaves everything else as it was.
   */
  lemma CleanedExactly(s: Store, dead: set<string>, key: string)
    ensures var r := Cleaned(s, dead);
            && (key in r.rooms <==> key in s.rooms && !ListedForDead(s, dead, key))
            && (key in r.sets <==> key in s.sets && !SetOfDead(dead, key))
            && (key in r.connections <==> key in s.connections && key !in dead)
            && (key in r.rtsp.sets <==> key in s.rtsp.sets && !StreamSetOfDead(dead, key))
            && (key in r.rooms ==> r.rooms[key] == s.rooms[key]) && (key in r.sets ==> r.sets[key] == s.sets[key])
            && (key in r.rtsp.sets ==> r.rtsp.sets[key] == s.rtsp.sets[key])
            && (key in r.rtsp.holders <==> key in s.rtsp.holders && !StreamOfDead(s, dead, key))
            && (key in r.rtsp.holders ==> r.rtsp.holders[key] == s.rtsp.holders[key])
  {
    if c :| c in dead && IsServiceNode("controller", c) && BuildRTSPConnectionSetKey(c) in s.rtsp.sets
            && key in s.rtsp.sets[BuildRTSPConnectionSetKey(c)]
            && key in s.rtsp.holders && s.rtsp.holders[key] == GetNodeID(c) {
      assert key in Streams(s.rtsp, c) && Streaming(s.rtsp, key, c);
      assert key in DoomedStreams(s.rtsp, dead);
    }
    if c :| c in dead && IsServiceNode("sfu", c) && key in SetAt(s, BuildRoomSetKeyOfService(c)) {
      assert key in RoomsOf(s, c);
      assert key in Doomed(s, dead);
    }
  }

  /** After a pass a caller can pick what it could before, except the connections that the pass found dead. */
  lemma DeadIsNotPicked(w: World, dead: set<string>, i: nat, c: string)
    requires Can(w, Clean(dead))
    ensures Can(Step(w, Clean(dead)), Pick(i, c)) <==> Can(w, Pick(i, c)) && c !in dead
  {}

  /** The node announces itself under this connection. */
  predicate Announces(e: Event, c: string) {
    e.KeepAlive? && c == BuildKeepAliveServiceKey(e.service, e.node)
  }

  /** A pass finds this connection dead. */
  predicate Buries(e: Event, c: string) {
    e.Clean? && c in e.dead
  }

  lemma StepOnConnection(w: World, e: Event, c: string)
    requires Can(w, e)
    ensures c in Step(w, e).store.connections <==>
            !Buries(e, c) && (c in w.store.connections || Announces(e, c))
  {}

  /** Step n announced the connection, and no pass up to step b found it dead again. */
  ghost predicate BackSince(es: seq<Event>, n: nat, b: nat, c: string)
    requires b <= |es|
  {
    n < b && Announces(es[n], c) && forall m :: n < m < b ==> !Buries(es[m], c)
  }

  /**
   In every run, a connection that a pass found dead is there again, to be picked, exactly if the
   node has announced itself since, after the last pass that found it dead.
   */
  lemma {:induction false} DeadStaysAwayIff(ws: seq<World>, es: seq<Event>, a: nat, b: nat, c: string)
    requires Run(ws, es) && a < b <= |es| && Buries(es[a], c)
    ensures c in ws[b].store.connections <==> exists n: nat :: a < n && BackSince(es, n, b, c)
  {
    StepOnConnection(ws[b - 1], es[b - 1], c);
    var last := b - 1;
    if a < last {
      DeadStaysAwayIff(ws, es, a, last, c);
      if Announces(es[last], c) {
        assert BackSince(es, last, b, c);
      } else if c in ws[b].store.connections {
        var n: nat :| a < n && BackSince(es, n, last, c);
        assert BackSince(es, n, b, c);
      }
      if n: nat :| a < n && BackSince(es, n, b, c) {
        assert n < last ==> BackSince(es, n, last, c);
      }
    }
  }

  // ---------------------------------------------------------------- agreement

  /** The step takes the room away. */
  ghost predicate Removes(w: World, e: Event, key: string) {
    match e
    case Remove(_, room) => BuildRoomKey(room) == key
    case Clean(dead) => key in Doomed(w.store, dead)
    case Expire(k) => k == key
    case _ => false
  }

  /** The step puts the room in. */
  predicate Creates(w: World, e: Event, key: string) {
    && e.SetNX? && e.i < |w.callers| && w.callers[e.i].Chosen? && BuildRoomKey(w.callers[e.i].room) == key
    && key !in w.store.rooms
  }

  /** Without removal a room keeps its node, and without creation a missing room stays missing. */
  lemma StepOnRoom(w: World, e: Event, key: string)
    requires Can(w, e)
    ensures var s := Step(w, e).store;
            && (key in w.store.rooms && !Removes(w, e, key) ==> key in s.rooms && s.rooms[key] == w.store.rooms[key])
            && (key in w.store.rooms && Removes(w, e, key) ==> key !in s.rooms)
            && (key !in w.store.rooms ==> (key in s.rooms <==> Creates(w, e, key)))
  {}

  /** No step from a up to b takes the room away. */
  ghost predicate NotRemoved(ws: seq<World>, es: seq<Event>, a: nat, b: nat, key: string)
    requires |ws| == |es| + 1
  {
    forall n :: a <= n < b && n < |es| ==> !Removes(ws[n], es[n], key)
  }

  /** The value of a room survives every window of a run in which the room is not taken away. */
  lemma {:induction false} RoomSurvives(ws: seq<World>, es: seq<Event>, a: nat, b: nat, key: string)
    requires Run(ws, es) && a <= b <= |es| && key in ws[a].store.rooms && NotRemoved(ws, es, a, b, key)
    ensures key in ws[b].store.rooms && ws[b].store.rooms[key] == ws[a].store.rooms[key]
  {
    if a < b {
      RoomSurvives(ws, es, a, b - 1, key);
      StepOnRoom(ws[b - 1], es[b - 1], key);
    }
  }

  /** What a caller knows is still so in the store. */
  ghost predicate Knows(s: Store, c: Caller) {
    var key := BuildRoomKey(c.room);
    match c
    case Beaten(_) => key in s.rooms
    case Created(_, connection) => key in s.rooms && s.rooms[key] == GetNodeID(connection)
    case Done(_, node) => key in s.rooms && s.rooms[key] == node
    case _ => true
  }

  /** The call had not learned anything of its room at that time, or not begun. */
  ghost predicate Unaware(w: World, i: nat) {
    i < |w.callers| ==> w.callers[i].Asking? || w.callers[i].Missing? || w.callers[i].Chosen? || w.callers[i].Failed?
  }

  /** The calls for a room that were unaware at the time of w know the room at the time of w'. */
  ghost predicate AllKnow(w: World, w': World, key: string) {
    && |w.callers| <= |w'.callers|
    && forall i :: 0 <= i < |w'.callers| && Unaware(w, i) && BuildRoomKey(w'.callers[i].room) == key ==>
       Knows(w'.store, w'.callers[i])
  }

  lemma StepKeepsKnowledge(w: World, w': World, e: Event, key: string)
    requires AllKnow(w, w', key) && Can(w', e) && !Removes(w', e, key)
    ensures AllKnow(w, Step(w', e), key)
  {
    StepOnRoom(w', e, key);
  }

  lemma {:induction false} WindowKeepsKnowledge(ws: seq<World>, es: seq<Event>, a: nat, b: nat, key: string)
    requires Run(ws, es) && a <= b <= |es| && NotRemoved(ws, es, a, b, key)
    ensures AllKnow(ws[a], ws[b], key)
  {
    if a < b {
      WindowKeepsKnowledge(ws, es, a, b - 1, key);
      StepKeepsKnowledge(ws[a], ws[b - 1], es[b - 1], key);
    }
  }

  /**
   Agreement: in every window of a run in which the room is not taken away, whatever happens to
   other rooms, whatever the interleaving and whatever node each caller picks, all calls that
   first look at the room in the window return the same node, which is the one in the store.
   */
  lemma CallersAgree(ws: seq<World>, es: seq<Event>, a: nat, b: nat, i: nat, j: nat)
    requires Run(ws, es) && a <= b <= |es| && Unaware(ws[a], i) && Unaware(ws[a], j)
    requires var cs := ws[b].callers; i < |cs| && j < |cs| && cs[i].Done? && cs[j].Done? && cs[i].room == cs[j].room
    requires NotRemoved(ws, es, a, b, BuildRoomKey(ws[b].callers[i].room))
    ensures ws[b].callers[i].node == ws[b].callers[j].node == Read(ws[b].store, BuildRoomKey(ws[b].callers[i].room))
  {
    WindowKeepsKnowledge(ws, es, a, b, BuildRoomKey(ws[b].callers[i].room));
  }

  // ---------------------------------------------------------------- a beaten caller

  /** No room has an empty node, and no caller is about to give it one. */
  ghost predicate NodesAreNamed(w: World) {
    && (forall key :: key in w.store.rooms ==> w.store.rooms[key] != "")
    && (forall c :: c in w.store.connections && IsServiceNode(SERVICE_SFU, c) ==> GetNodeID(c) != "")
    && (forall i :: 0 <= i < |w.callers| && w.callers[i].Chosen? ==> GetNodeID(w.callers[i].connection) != "")
  }

  lemma {:induction false} RunKeepsNames(ws: seq<World>, es: seq<Event>, n: nat)
    requires Run(ws, es) && n <= |es| && NodesAreNamed(ws[0])
    requires forall i :: 0 <= i < n && es[i].KeepAlive? ==> es[i].node != ""
    ensures NodesAreNamed(ws[n])
  {
    if n > 0 {
      RunKeepsNames(ws, es, n - 1);
      StepKeepsNames(ws[n - 1], es[n - 1]);
    }
  }

  lemma StepKeepsNames(w: World, e: Event)
    requires NodesAreNamed(w) && Can(w, e) && (e.KeepAlive? ==> e.node != "")
    ensures NodesAreNamed(Step(w, e))
  {
    if e.KeepAlive? {
      NodeIDRoundTrip(e.service, e.node);
    }
  }

  /** Step d took the room away, and nothing from then up to step b put it in again. */
  ghost predicate GoneSince(ws: seq<World>, es: seq<Event>, d: nat, b: nat, key: string)
    requires |ws| == |es| + 1
  {
    d < b <= |es| && Removes(ws[d], es[d], key) && forall n :: d < n < b ==> !Creates(ws[n], es[n], key)
  }

  lemma {:induction false} GoneIsMissing(ws: seq<World>, es: seq<Event>, d: nat, b: nat, key: string)
    requires Run(ws, es) && GoneSince(ws, es, d, b, key)
    ensures key !in ws[b].store.rooms
  {
    if d + 1 < b {
      GoneIsMissing(ws, es, d, b - 1, key);
    } else {
      assert key !in Step(ws[d], es[d]).store.rooms;
    }
    StepOnRoom(ws[b - 1], es[b - 1], key);
  }

  lemma {:induction false} MissingIsGone(ws: seq<World>, es: seq<Event>, a: nat, b: nat, key: string) returns (d: nat)
    requires Run(ws, es) && a < b <= |es| && key in ws[a].store.rooms && key !in ws[b].store.rooms
    ensures a <= d && GoneSince(ws, es, d, b, key)
  {
    StepOnRoom(ws[b - 1], es[b - 1], key);
    if key in ws[b - 1].store.rooms {
      d := b - 1;
    } else {
      d := MissingIsGone(ws, es, a, b - 1, key);
    }
  }

  lemma {:induction false} CallerKeepsRoom(ws: seq<World>, es: seq<Event>, a: nat, b: nat, i: nat)
    requires Run(ws, es) && a <= b <= |es| && i < |ws[a].callers|
    ensures i < |ws[b].callers| && ws[b].callers[i].room == ws[a].callers[i].room
  {
    if a < b {
      CallerKeepsRoom(ws, es, a, b - 1, i);
    }
  }

  /**
   A caller that was beaten at step a and reads again at step b returns no node, and no error,
   exactly when the room was taken away in between and not put in again.
   */
  lemma NoNodeIff(ws: seq<World>, es: seq<Event>, a: nat, b: nat, i: nat)
    requires Run(ws, es) && a < b < |es| && NodesAreNamed(ws[0])
    requires forall n :: 0 <= n < |es| && es[n].KeepAlive? ==> es[n].node != ""
    requires es[a] == SetNX(i) && es[b] == GetAgain(i) && ws[a + 1].callers[i].Beaten?
    ensures var room := ws[a + 1].callers[i].room;
            ws[b + 1].callers[i] == Done(room, "") <==>
                exists d: nat :: a < d && GoneSince(ws, es, d, b, BuildRoomKey(room))
  {
    var room := ws[a + 1].callers[i].room;
    var key := BuildRoomKey(room);
    RunKeepsNames(ws, es, b);
    CallerKeepsRoom(ws, es, a + 1, b, i);
    assert key in ws[a + 1].store.rooms;
    assert ws[b + 1].callers[i] == Done(room, Read(ws[b].store, key));
    if key !in ws[b].store.rooms {
      var d := MissingIsGone(ws, es, a + 1, b, key);
    }
    forall d: nat | a < d && GoneSince(ws, es, d, b, key) ensures key !in ws[b].store.rooms {
      GoneIsMissing(ws, es, d, b, key);
    }
  }

  /** One deletion between the two commands is enough. */
  lemma DeletionGivesNoNode(w: World, i: nat, node: string)
    requires i < |w.callers| && w.callers[i].Beaten?
    ensures var room := w.callers[i].room;
            Step(Step(w, Remove(node, room)), GetAgain(i)).callers[i] == Done(room, "")
  {}

  // ---------------------------------------------------------------- the index of rooms by node

  predicate OfSFU(connection: string) {
    connection == BuildKeepAliveServiceKey(SERVICE_SFU, GetNodeID(connection))
  }

  /** All connections of the service are keys of their node ids. */
  ghost predicate ConnectionsAreKeys(w: World) {
    && (forall c :: c in w.store.connections && IsServiceNode(SERVICE_SFU, c) ==> OfSFU(c))
    && (forall i :: 0 <= i < |w.callers| && (w.callers[i].Chosen? || w.callers[i].Created?) ==>
       OfSFU(w.callers[i].connection))
  }

  /** A caller has put a room into the store for this connection, and has still to list it there. */
  ghost predicate Pending(callers: seq<Caller>, key: string, connection: string) {
    exists i :: 0 <= i < |callers| && IsCreator(callers[i], key, connection)
  }

  predicate IsCreator(c: Caller, key: string, connection: string) {
    c.Created? && BuildRoomKey(c.room) == key && c.connection == connection
  }

  ghost predicate Listed(s: Store, callers: seq<Caller>, key: string)
    requires key in s.rooms
  {
    var connection := BuildKeepAliveServiceKey(SERVICE_SFU, s.rooms[key]);
    key in RoomsOf(s, connection) || Pending(callers, key, connection)
  }

  ghost predicate Indexed(w: World) {
    forall key :: key in w.store.rooms ==> Listed(w.store, w.callers, key)
  }

  lemma StepKeepsConnections(w: World, e: Event)
    requires ConnectionsAreKeys(w) && Can(w, e)
    ensures ConnectionsAreKeys(Step(w, e))
  {
    if e.KeepAlive? {
      NodeIDRoundTrip(e.service, e.node);
    }
  }

  /** Callers that do not finish a creation leave the pending ones alone. */
  lemma PendingStays(cs: seq<Caller>, i: nat, c: Caller, key: string, connection: string)
    requires i < |cs| && !cs[i].Created? && Pending(cs, key, connection)
    ensures Pending(cs[i := c], key, connection)
  {
    var j :| 0 <= j < |cs| && IsCreator(cs[j], key, connection);
    assert cs[i := c][j] == cs[j];
  }

  lemma CreationIsListed(w: World, i: nat)
    requires ConnectionsAreKeys(w) && Indexed(w) && Can(w, SetNX(i))
    ensures Indexed(Step(w, SetNX(i)))
  {
    var w' := Step(w, SetNX(i));
    forall key | key in w'.store.rooms ensures Listed(w'.store, w'.callers, key) {
      if key in w.store.rooms {
        var c := BuildKeepAliveServiceKey(SERVICE_SFU, w.store.rooms[key]);
        if Pending(w.callers, key, c) {
          PendingStays(w.callers, i, w'.callers[i], key, c);
        }
      } else {
        assert IsCreator(w'.callers[i], key, w.callers[i].connection);
      }
    }
  }

  lemma AdditionIsListed(w: World, i: nat)
    requires ConnectionsAreKeys(w) && Indexed(w) && Can(w, SAdd(i))
    ensures Indexed(Step(w, SAdd(i)))
  {
    var w' := Step(w, SAdd(i));
    var added := w.callers[i];
    forall key | key in w'.store.rooms ensures Listed(w'.store, w'.callers, key) {
      var c := BuildKeepAliveServiceKey(SERVICE_SFU, w.store.rooms[key]);
      KeysAreInjective(c, added.connection);
      if key !in RoomsOf(w.store, c) && !IsCreator(added, key, c) {
        var j :| 0 <= j < |w.callers| && IsCreator(w.callers[j], key, c);
        assert w'.callers[j] == w.callers[j];
      }
    }
  }

  lemma RemovalIsListed(w: World, node: string, room: string)
    requires Indexed(w)
    ensures Indexed(Step(w, Remove(node, room)))
  {
    var w' := Step(w, Remove(node, room));
    forall key | key in w'.store.rooms ensures Listed(w'.store, w'.callers, key) {
      assert Listed(w.store, w.callers, key);
      KeysAreInjective(BuildKeepAliveServiceKey(SERVICE_SFU, w.store.rooms[key]),
                       BuildKeepAliveServiceKey(SERVICE_SFU, node));
    }
  }

  lemma CleaningIsListed(w: World, dead: set<string>)
    requires Indexed(w) && Can(w, Clean(dead))
    ensures Indexed(Step(w, Clean(dead)))
  {
    var w' := Step(w, Clean(dead));
    forall key | key in w'.store.rooms ensures Listed(w'.store, w'.callers, key) {
      assert Listed(w.store, w.callers, key);
      var c := BuildKeepAliveServiceKey(SERVICE_SFU, w.store.rooms[key]);
      if BuildRoomSetKeyOfService(c) in DoomedSets(dead) {
        var d :| d in dead && IsServiceNode(SERVICE_SFU, d)
            && BuildRoomSetKeyOfService(d) == BuildRoomSetKeyOfService(c);
        KeysAreInjective(c, d);
        assert key !in RoomsOf(w.store, c);
      }
    }
  }

  /**
   The index is kept by every step, deletions and expiry included: a room that holds a node is in
   the set of that node, or its creator is still on the way there.
   */
  lemma StepKeepsIndex(w: World, e: Event)
    requires ConnectionsAreKeys(w) && Indexed(w) && Can(w, e)
    ensures Indexed(Step(w, e))
  {
    match e
    case SetNX(i) => CreationIsListed(w, i);
    case SAdd(i) => AdditionIsListed(w, i);
    case Remove(node, room) => RemovalIsListed(w, node, room);
    case Clean(dead) => CleaningIsListed(w, dead);
    case _ =>
      var w' := Step(w, e);
      forall key | key in w'.store.rooms ensures Listed(w'.store, w'.callers, key) {
        var c := BuildKeepAliveServiceKey(SERVICE_SFU, w.store.rooms[key]);
        if Pending(w.callers, key, c) {
          var j :| 0 <= j < |w.callers| && IsCreator(w.callers[j], key, c);
          assert w'.callers[j] == w.callers[j];
        }
      }
  }

  lemma {:induction false} RunKeepsIndex(ws: seq<World>, es: seq<Event>, n: nat)
    requires Run(ws, es) && n <= |es| && ConnectionsAreKeys(ws[0]) && Indexed(ws[0])
    ensures ConnectionsAreKeys(ws[n]) && Indexed(ws[n])
  {
    if n > 0 {
      RunKeepsIndex(ws, es, n - 1);
      StepKeepsConnections(ws[n - 1], es[n - 1]);
      StepKeepsIndex(ws[n - 1], es[n - 1]);
    }
  }

  /**
   What the index is for: in every run, after a cleaner pass no room is left with a node that the
   pass found dead, except one whose creator has still to list it.
   */
  lemma NoDanglingRooms(ws: seq<World>, es: seq<Event>, dead: set<string>, key: string)
    requires Run(ws, es) && ConnectionsAreKeys(ws[0]) && Indexed(ws[0])
    requires key in Cleaned(ws[|es|].store, dead).rooms
    ensures var connection := BuildKeepAliveServiceKey(SERVICE_SFU, ws[|es|].store.rooms[key]);
            connection in dead ==> Pending(ws[|es|].callers, key, connection)
  {
    RunKeepsIndex(ws, es, |es|);
    var connection := BuildKeepAliveServiceKey(SERVICE_SFU, ws[|es|].store.rooms[key]);
    NodeIDRoundTrip(SERVICE_SFU, ws[|es|].store.rooms[key]);
    assert key !in Doomed(ws[|es|].store, dead);
  }

  // ---------------------------------------------------------------- what the cleaner takes away

  ghost predicate Holds(s: Store, key: string, connection: string) {
    key in s.rooms && s.rooms[key] == GetNodeID(connection)
  }

  ghost predicate NowhereListed(s: Store, key: string) {
    forall c :: OfSFU(c) ==> key !in RoomsOf(s, c)
  }

  /** The sets list only rooms of their own node, and a room on the way to a set is in no set and has one creator. */
  ghost predicate Exact(w: World) {
    && (forall c, key :: OfSFU(c) && key in RoomsOf(w.store, c) ==> Holds(w.store, key, c))
    && (forall i :: 0 <= i < |w.callers| && w.callers[i].Created? ==>
          Holds(w.store, BuildRoomKey(w.callers[i].room), w.callers[i].connection)
          && NowhereListed(w.store, BuildRoomKey(w.callers[i].room)))
    && (forall i, j :: 0 <= i < j < |w.callers| && w.callers[i].Created? && w.callers[j].Created? ==>
          BuildRoomKey(w.callers[i].room) != BuildRoomKey(w.callers[j].room))
  }

  lemma CreationIsExact(w: World, i: nat)
    requires ConnectionsAreKeys(w) && Exact(w) && Can(w, SetNX(i))
    ensures Exact(Step(w, SetNX(i)))
  {
    var w', key := Step(w, SetNX(i)), BuildRoomKey(w.callers[i].room);
    if key !in w.store.rooms {
      assert NowhereListed(w.store, key);
      assert forall c :: RoomsOf(w'.store, c) == RoomsOf(w.store, c);
      assert NowhereListed(w'.store, key);
      forall j | 0 <= j < |w.callers| && w.callers[j].Created?
        ensures BuildRoomKey(w.callers[j].room) != key && NowhereListed(w'.store, BuildRoomKey(w.callers[j].room))
      {
        assert NowhereListed(w.store, BuildRoomKey(w.callers[j].room));
      }
    }
  }

  lemma AdditionIsExact(w: World, i: nat)
    requires ConnectionsAreKeys(w) && Exact(w) && Can(w, SAdd(i))
    ensures Exact(Step(w, SAdd(i)))
  {
    var w', added := Step(w, SAdd(i)), w.callers[i];
    forall c ensures RoomsOf(w'.store, c)
                     == if c == added.connection then RoomsOf(w.store, c) + {BuildRoomKey(added.room)}
                         else RoomsOf(w.store, c) {
      KeysAreInjective(c, added.connection);
    }
    forall j | 0 <= j < |w.callers| && j != i && w.callers[j].Created?
      ensures NowhereListed(w'.store, BuildRoomKey(w.callers[j].room))
    {
      assert BuildRoomKey(w.callers[j].room) != BuildRoomKey(added.room);
      assert NowhereListed(w.store, BuildRoomKey(w.callers[j].room));
    }
  }

  lemma RoomsAfterCleaning(s: Store, dead: set<string>, c: string)
    ensures RoomsOf(Cleaned(s, dead), c) <= RoomsOf(s, c)
    ensures c in dead && IsServiceNode(SERVICE_SFU, c) ==> RoomsOf(Cleaned(s, dead), c) == {}
  {}

  /** A pass takes away a room only from the dead node that holds it. */
  lemma DoomedAreHeldByDead(w: World, dead: set<string>, key: string) returns (connection: string)
    requires ConnectionsAreKeys(w) && Exact(w) && dead <= w.store.connections && key in Doomed(w.store, dead)
    ensures connection in dead && IsServiceNode(SERVICE_SFU, connection) && OfSFU(connection)
    ensures key in RoomsOf(w.store, connection) && Holds(w.store, key, connection)
  {
    connection :| connection in dead && IsServiceNode(SERVICE_SFU, connection) && key in RoomsOf(w.store, connection);
  }

  lemma CleaningIsExact(w: World, dead: set<string>)
    requires ConnectionsAreKeys(w) && Exact(w) && Can(w, Clean(dead))
    ensures Exact(Step(w, Clean(dead)))
  {
    var s := Cleaned(w.store, dead);
    forall c, key | OfSFU(c) && key in RoomsOf(s, c) ensures Holds(s, key, c) {
      RoomsAfterCleaning(w.store, dead, c);
      assert Holds(w.store, key, c);
      if key in Doomed(w.store, dead) {
        var d := DoomedAreHeldByDead(w, dead, key);
        assert false;
      }
    }
    forall i | 0 <= i < |w.callers| && w.callers[i].Created?
      ensures Holds(s, BuildRoomKey(w.callers[i].room), w.callers[i].connection)
      ensures NowhereListed(s, BuildRoomKey(w.callers[i].room))
    {
      var key := BuildRoomKey(w.callers[i].room);
      assert NowhereListed(w.store, key);
      if key in Doomed(w.store, dead) {
        var d := DoomedAreHeldByDead(w, dead, key);
      }
      forall c | OfSFU(c) ensures key !in RoomsOf(s, c) {
        RoomsAfterCleaning(w.store, dead, c);
      }
    }
  }

  /** A caller has put the room into the store and has still to list it, for whatever connection. */
  ghost predicate OnItsWay(w: World, key: string) {
    exists i :: 0 <= i < |w.callers| && w.callers[i].Created? && BuildRoomKey(w.callers[i].room) == key
  }

  /** No set of a media node other than this one lists the room. */
  ghost predicate ListedOnlyFor(s: Store, key: string, node: string) {
    forall c :: OfSFU(c) && key in RoomsOf(s, c) ==> c == BuildKeepAliveServiceKey(SERVICE_SFU, node)
  }

  lemma SetsAfterRemoval(s: Store, node: string, room: string, c: string)
    ensures RoomsOf(Removed(s, node, room), c)
            == if c == BuildKeepAliveServiceKey(SERVICE_SFU, node) then RoomsOf(s, c) - {BuildRoomKey(room)}
                else RoomsOf(s, c)
  {
    KeysAreInjective(c, BuildKeepAliveServiceKey(SERVICE_SFU, node));
  }

  /**
   RemoveRoom keeps the sets exact if and only if the room is listed for no other node and no
   creator is on its way with it.
   */
  lemma RemovalIsExactIff(w: World, node: string, room: string)
    requires ConnectionsAreKeys(w) && Exact(w)
    ensures Exact(Step(w, Remove(node, room))) <==>
            ListedOnlyFor(w.store, BuildRoomKey(room), node) && !OnItsWay(w, BuildRoomKey(room))
  {
    var w', key := Step(w, Remove(node, room)), BuildRoomKey(room);
    forall c ensures RoomsOf(w'.store, c)
                     == if c == BuildKeepAliveServiceKey(SERVICE_SFU, node) then RoomsOf(w.store, c) - {key}
                         else RoomsOf(w.store, c) {
      SetsAfterRemoval(w.store, node, room, c);
    }
    if ListedOnlyFor(w.store, key, node) && !OnItsWay(w, key) {
      RemovalIsExact(w, w', key);
    } else if OnItsWay(w, key) {
      var i :| 0 <= i < |w.callers| && w.callers[i].Created? && BuildRoomKey(w.callers[i].room) == key;
      assert !Holds(w'.store, key, w'.callers[i].connection);
    } else {
      var c :| OfSFU(c) && key in RoomsOf(w.store, c) && c != BuildKeepAliveServiceKey(SERVICE_SFU, node);
      assert key in RoomsOf(w'.store, c) && !Holds(w'.store, key, c);
    }
  }

  /** Taking one room away, with all that lists it. */
  lemma RemovalIsExact(w: World, w': World, key: string)
    requires Exact(w) && !OnItsWay(w, key) && w'.callers == w.callers && w'.store.rooms == w.store.rooms - {key}
    requires forall c :: RoomsOf(w'.store, c) <= RoomsOf(w.store, c)
    requires forall c :: OfSFU(c) ==> key !in RoomsOf(w'.store, c)
    ensures Exact(w')
  {
    forall c, k | OfSFU(c) && k in RoomsOf(w'.store, c) ensures Holds(w'.store, k, c) {
      assert Holds(w.store, k, c);
    }
    forall i | 0 <= i < |w.callers| && w.callers[i].Created?
      ensures Holds(w'.store, BuildRoomKey(w.callers[i].room), w.callers[i].connection)
      ensures NowhereListed(w'.store, BuildRoomKey(w.callers[i].room))
    {
      assert Holds(w.store, BuildRoomKey(w.callers[i].room), w.callers[i].connection);
      assert NowhereListed(w.store, BuildRoomKey(w.callers[i].room));
    }
  }

  /** Expiry keeps the sets exact if and only if the room is listed nowhere and no creator is on its way with it. */
  lemma ExpiryIsExactIff(w: World, key: string)
    requires ConnectionsAreKeys(w) && Exact(w)
    ensures Exact(Step(w, Expire(key))) <==> NowhereListed(w.store, key) && !OnItsWay(w, key)
  {
    var w' := Step(w, Expire(key));
    assert forall c :: RoomsOf(w'.store, c) == RoomsOf(w.store, c);
    if NowhereListed(w.store, key) && !OnItsWay(w, key) {
      RemovalIsExact(w, w', key);
    } else if OnItsWay(w, key) {
      var i :| 0 <= i < |w.callers| && w.callers[i].Created? && BuildRoomKey(w.callers[i].room) == key;
      assert !Holds(w'.store, key, w'.callers[i].connection);
    } else {
      var c :| OfSFU(c) && key in RoomsOf(w.store, c);
      assert key in RoomsOf(w'.store, c) && !Holds(w'.store, key, c);
    }
  }

  /** The step leaves no entry behind for a room that it takes away. */
  ghost predicate Tidy(w: World, e: Event) {
    match e
    case Remove(node, room) => ListedOnlyFor(w.store, BuildRoomKey(room), node) && !OnItsWay(w, BuildRoomKey(room))
    case Expire(key) => NowhereListed(w.store, key) && !OnItsWay(w, key)
    case _ => true
  }

  /** Every step keeps the sets exact if and only if it is tidy. */
  lemma StepIsExactIff(w: World, e: Event)
    requires ConnectionsAreKeys(w) && Exact(w) && Can(w, e)
    ensures Exact(Step(w, e)) <==> Tidy(w, e)
  {
    match e
    case Remove(node, room) => RemovalIsExactIff(w, node, room);
    case Expire(key) => ExpiryIsExactIff(w, key);
    case _ => StepKeepsExact(w, e);
  }

  lemma StepKeepsExact(w: World, e: Event)
    requires ConnectionsAreKeys(w) && Exact(w) && Can(w, e) && !e.Remove? && !e.Expire?
    ensures Exact(Step(w, e))
  {
    var w' := Step(w, e);
    match e
    case SetNX(i) => CreationIsExact(w, i);
    case SAdd(i) => AdditionIsExact(w, i);
    case Clean(dead) => CleaningIsExact(w, dead);
    case Call(_) | Get(_) | Pick(_, _) | NoNode(_) | GetAgain(_) | KeepAlive(_, _) => SameSets(w, w');
  }

  lemma SameSets(w: World, w': World)
    requires Exact(w) && w'.store.rooms == w.store.rooms && w'.store.sets == w.store.sets
    requires |w.callers| <= |w'.callers|
    requires forall i :: 0 <= i < |w'.callers| && w'.callers[i].Created? ==>
             i < |w.callers| && w.callers[i] == w'.callers[i]
    ensures Exact(w')
  {
    assert forall c :: RoomsOf(w'.store, c) == RoomsOf(w.store, c);
    forall i | 0 <= i < |w'.callers| && w'.callers[i].Created?
      ensures NowhereListed(w'.store, BuildRoomKey(w'.callers[i].room))
    {
      assert NowhereListed(w.store, BuildRoomKey(w.callers[i].room));
    }
  }

  lemma {:induction false} RunKeepsExact(ws: seq<World>, es: seq<Event>, n: nat)
    requires Run(ws, es) && n <= |es| && ConnectionsAreKeys(ws[0]) && Exact(ws[0])
    requires forall i :: 0 <= i < n ==> Tidy(ws[i], es[i])
    ensures ConnectionsAreKeys(ws[n]) && Exact(ws[n])
  {
    if n > 0 {
      RunKeepsExact(ws, es, n - 1);
      StepKeepsConnections(ws[n - 1], es[n - 1]);
      StepIsExactIff(ws[n - 1], es[n - 1]);
    }
  }

  /**
   In every run in which each RemoveRoom and each expiry is tidy, a cleaner pass takes away only
   rooms whose node is dead.
   */
  lemma CleanerSparesLiveRooms(ws: seq<World>, es: seq<Event>, dead: set<string>, key: string)
    requires Run(ws, es) && ConnectionsAreKeys(ws[0]) && Exact(ws[0])
    requires forall i :: 0 <= i < |es| ==> Tidy(ws[i], es[i])
    requires dead <= ws[|es|].store.connections
    requires key in ws[|es|].store.rooms && key !in Cleaned(ws[|es|].store, dead).rooms
    ensures BuildKeepAliveServiceKey(SERVICE_SFU, ws[|es|].store.rooms[key]) in dead
  {
    RunKeepsExact(ws, es, |es|);
    var connection := DoomedAreHeldByDead(ws[|es|], dead, key);
  }

  /** Some steps one after another. */
  ghost predicate Path(ws: seq<World>, es: seq<Event>) {
    |ws| == |es| + 1 && forall i :: 0 <= i < |es| ==> Can(ws[i], es[i]) && ws[i + 1] == Step(ws[i], es[i])
  }

  lemma PathsJoin(ws: seq<World>, es: seq<Event>, ws': seq<World>, es': seq<Event>)
    requires Path(ws, es) && Path(ws', es') && ws[|es|] == ws'[0]
    ensures Path(ws[..|es|] + ws', es + es')
  {
    var all, events := ws[..|es|] + ws', es + es';
    forall i | 0 <= i < |events| ensures Can(all[i], events[i]) && all[i + 1] == Step(all[i], events[i]) {
      assert i < |es| || (all[i] == ws'[i - |es|] && events[i] == es'[i - |es|]);
    }
  }

  lemma OneCreation(w: World, i: nat, room: string, connection: string) returns (ws: seq<World>)
    requires i < |w.callers| && w.callers[i] == Chosen(room, connection) && BuildRoomKey(room) !in w.store.rooms
    ensures Path(ws, [SetNX(i)]) && ws[0] == w
    ensures ws[1] == World(w.store.(rooms := w.store.rooms[BuildRoomKey(room) := GetNodeID(connection)]),
                           w.callers[i := Created(room, connection)])
  {
    ws := [w, Step(w, SetNX(i))];
  }

  lemma OneListing(w: World, i: nat, room: string, connection: string) returns (ws: seq<World>)
    requires i < |w.callers| && w.callers[i] == Created(room, connection)
    ensures Path(ws, [SAdd(i)]) && ws[0] == w
    ensures ws[1] == World(AfterSAdd(w.store, room, connection), w.callers[i := Done(room, GetNodeID(connection))])
  {
    ws := [w, Step(w, SAdd(i))];
  }

  lemma OneRemoval(w: World, node: string, room: string) returns (ws: seq<World>)
    ensures Path(ws, [Remove(node, room)]) && ws[0] == w
    ensures ws[1] == World(Removed(w.store, node, room), w.callers)
  {
    ws := [w, Step(w, Remove(node, room))];
  }

  lemma ListedIsTaken(s: Store, connection: string, room: string)
    requires IsServiceNode(SERVICE_SFU, connection)
    ensures BuildRoomKey(room) !in Cleaned(AfterSAdd(s, room, connection), {connection}).rooms
  {
    var after := AfterSAdd(s, room, connection);
    assert BuildRoomKey(room) in RoomsOf(after, connection);
    assert BuildRoomKey(room) in Doomed(after, {connection});
  }

  /** The first caller creates the room, which is then removed. */
  lemma StaleStart(s: Store, room: string, a: string, b: string) returns (ws: seq<World>)
    requires BuildRoomKey(room) !in s.rooms
    ensures Path(ws, [SetNX(0), Remove(GetNodeID(a), room)]) && ws[0] == World(s, [Chosen(room, a), Chosen(room, b)])
    ensures ws[2].callers == [Created(room, a), Chosen(room, b)] && ws[2].store.connections == s.connections
    ensures BuildRoomKey(room) !in ws[2].store.rooms
  {
    var created := OneCreation(World(s, [Chosen(room, a), Chosen(room, b)]), 0, room, a);
    var removed := OneRemoval(created[1], GetNodeID(a), room);
    PathsJoin(created, [SetNX(0)], removed, [Remove(GetNodeID(a), room)]);
    ws := created[..1] + removed;
  }

  /** The second caller creates and lists it, and then the first one lists it. */
  lemma StaleEnd(w: World, room: string, a: string, b: string) returns (ws: seq<World>)
    requires w.callers == [Created(room, a), Chosen(room, b)] && BuildRoomKey(room) !in w.store.rooms
    requires IsServiceNode(SERVICE_SFU, a)
    ensures Path(ws, [SetNX(1), SAdd(1), SAdd(0)]) && ws[0] == w && ws[3].store.connections == w.store.connections
    ensures ws[3].callers == [Done(room, GetNodeID(a)), Done(room, GetNodeID(b))]
    ensures Read(ws[3].store, BuildRoomKey(room)) == GetNodeID(b)
    ensures BuildRoomKey(room) !in Cleaned(ws[3].store, {a}).rooms
  {
    var created := OneCreation(w, 1, room, b);
    var listed := OneListing(created[1], 1, room, b);
    var late := OneListing(listed[1], 0, room, a);
    ListedIsTaken(listed[1].store, a, room);
    PathsJoin(created, [SetNX(1)], listed, [SAdd(1)]);
    PathsJoin(created[..1] + listed, [SetNX(1), SAdd(1)], late, [SAdd(0)]);
    ws := created[..1] + listed[..1] + late;
    assert (created[..1] + listed)[..2] == created[..1] + listed[..1];
  }

  /**
   After a RemoveRoom that is not tidy, the index may list too much: when a room is removed and
   created again elsewhere while its first creator has still to list it, the cleaner later takes the
   live room away with the dead first node.
   */
  lemma StaleEntryTakesLiveRoom(s: Store, room: string, a: string, b: string) returns (ws: seq<World>)
    requires BuildRoomKey(room) !in s.rooms && IsServiceNode(SERVICE_SFU, a) && OfSFU(a)
    requires a in s.connections && b in s.connections && a != b
    ensures ws != [] && ws[0] == World(s, [Chosen(room, a), Chosen(room, b)])
    ensures Path(ws, [SetNX(0), Remove(GetNodeID(a), room), SetNX(1), SAdd(1), SAdd(0)])
    ensures ws[5].callers == [Done(room, GetNodeID(a)), Done(room, GetNodeID(b))]
    ensures Read(ws[5].store, BuildRoomKey(room)) == GetNodeID(b)
    ensures a in ws[5].store.connections && BuildRoomKey(room) !in Cleaned(ws[5].store, {a}).rooms
  {
    var start := StaleStart(s, room, a, b);
    var end := StaleEnd(start[2], room, a, b);
    var es, es' := [SetNX(0), Remove(GetNodeID(a), room)], [SetNX(1), SAdd(1), SAdd(0)];
    PathsJoin(start, es, end, es');
    ws := start[..2] + end;
    assert es + es' == [SetNX(0), Remove(GetNodeID(a), room), SetNX(1), SAdd(1), SAdd(0)];
  }
}
