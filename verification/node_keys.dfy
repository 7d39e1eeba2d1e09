/**
 The keys under which nodes and rooms are registered: strings of parts with ':' between them.
 */
module NodeKeys {

  const KEEP_ALIVE_SERVICE_PREFIX := "redis_service_keep_alive"
  const ROOM_PREFIX := "redis_sfu_room"
  const ROOM_SET_PREFIX := "redis_sfu_room_set"
  const RTSP_CONNECTION_SET_PREFIX := "redis_rtsp_connection_set"
  const SEPARATOR := ":"
  const SERVICE_SFU := "sfu"
  const SERVICE_CONTROLLER := "controller"

  function BuildKeepAliveServiceKey(service: string, nodeID: string): string {
    KEEP_ALIVE_SERVICE_PREFIX + SEPARATOR + service + SEPARATOR + nodeID
  }

  function BuildRoomKey(roomName: string): string {
    ROOM_PREFIX + SEPARATOR + roomName
  }

  function BuildRoomSetKeyOfService(postFix: string): string {
    ROOM_SET_PREFIX + SEPARATOR + postFix
  }

  function BuildRTSPConnectionSetKey(postFix: string): string {
    RTSP_CONNECTION_SET_PREFIX + SEPARATOR + postFix
  }

  /** strings.Split at every separator. */
  function Split(s: string): (parts: seq<string>)
    ensures |parts| > 0
  {
    if s == "" then [""]
    else
      var rest := Split(s[1..]);
      if s[0] == ':' then [""] + rest else [[s[0]] + rest[0]] + rest[1..]
  }

  function GetNodeID(id: string): string {
    var components := Split(id);
    if |components| < 3 then "" else components[2]
  }

  predicate IsServiceNode(service: string, id: string) {
    var components := Split(id);
    |components| >= 2 && service == components[1]
  }

  lemma {:induction false} SplitFirst(a: string, b: string)
    requires ':' !in a
    ensures Split(a + SEPARATOR + b) == [a] + Split(b)
  {
    if a == "" {
      assert (a + SEPARATOR + b)[1..] == b;
    } else {
      SplitFirst(a[1..], b);
      assert (a + SEPARATOR + b)[1..] == a[1..] + SEPARATOR + b;
      assert [a[0]] + a[1..] == a;
    }
  }

  lemma {:induction false} FirstPartIff(s: string)
    ensures Split(s)[0] == s <==> ':' !in s
    ensures |Split(s)[0]| <= |s|
  {
    if s != "" {
      FirstPartIff(s[1..]);
      assert s == [s[0]] + s[1..];
    }
  }

  lemma {:induction false} SplitLast(a: string)
    requires ':' !in a
    ensures Split(a) == [a]
  {
    if a != "" {
      SplitLast(a[1..]);
      assert [a[0]] + a[1..] == a;
    }
  }

  lemma {:induction false} FirstPart(s: string) returns (rest: string)
    ensures ':' !in Split(s)[0]
    ensures |Split(s)| == 1 ==> s == Split(s)[0]
    ensures |Split(s)| > 1 ==> s == Split(s)[0] + ":" + rest && Split(s)[1..] == Split(rest)
  {
    rest := "";
    if s != "" {
      if s[0] == ':' {
        rest := s[1..];
        assert s == "" + ":" + rest;
      } else {
        rest := FirstPart(s[1..]);
        assert s == [s[0]] + s[1..];
      }
    }
  }

  /** What is between the first and the second separator, or behind the first if there is no second. */
  ghost predicate SecondPart(id: string, service: string) {
    exists a, rest :: ':' !in a && (id == a + ":" + service || id == a + ":" + service + ":" + rest)
  }

  /** IsServiceNode looks at the second part of an id, whatever the first is and however many follow. */
  lemma ServiceNodeIff(service: string, id: string)
    requires ':' !in service
    ensures IsServiceNode(service, id) <==> SecondPart(id, service)
  {
    if IsServiceNode(service, id) {
      var a := Split(id)[0];
      var rest := FirstPart(id);
      var more := FirstPart(rest);
      assert Split(id)[1] == Split(rest)[0] == service;
      assert |Split(rest)| > 1 ==> id == a + ":" + service + ":" + more;
      assert |Split(rest)| == 1 ==> id == a + ":" + service;
    }
    if a, rest :| ':' !in a && (id == a + ":" + service || id == a + ":" + service + ":" + rest) {
      if id == a + ":" + service {
        SplitFirst(a, service);
        SplitLast(service);
      } else {
        assert id == a + ":" + (service + ":" + rest);
        SplitFirst(a, service + ":" + rest);
        SplitFirst(service, rest);
      }
    }
  }

  /** GetNodeID gives the third part, or nothing if there is none. */
  lemma NodeIDIs(a: string, b: string, c: string, rest: string)
    requires ':' !in a && ':' !in b && ':' !in c
    ensures GetNodeID(a + ":" + b + ":" + c) == c == GetNodeID(a + ":" + b + ":" + c + ":" + rest)
    ensures GetNodeID(a + ":" + b) == "" == GetNodeID(a)
  {
    assert a + ":" + b + ":" + c == a + ":" + (b + ":" + c);
    assert a + ":" + b + ":" + c + ":" + rest == a + ":" + (b + ":" + (c + ":" + rest));
    SplitFirst(a, b + ":" + c);
    SplitFirst(a, b + ":" + (c + ":" + rest));
    SplitFirst(a, b);
    SplitFirst(b, c);
    SplitFirst(b, c + ":" + rest);
    SplitFirst(c, rest);
    SplitLast(a);
    SplitLast(b);
    SplitLast(c);
  }

  /** The keys as they are in the store. */
  lemma KeysAsStored(service: string, node: string, room: string, connection: string)
    ensures BuildKeepAliveServiceKey(service, node) == "redis_service_keep_alive:" + service + ":" + node
    ensures BuildRoomKey(room) == "redis_sfu_room:" + room
    ensures BuildRoomSetKeyOfService(connection) == "redis_sfu_room_set:" + connection
    ensures BuildRTSPConnectionSetKey(connection) == "redis_rtsp_connection_set:" + connection
    ensures SERVICE_SFU == "sfu" && SERVICE_CONTROLLER == "controller"
  {}

  /** A node's id comes back from its key exactly when it has no separator in it; its service always does. */
  lemma NodeIDRoundTrip(service: string, nodeID: string)
    requires ':' !in service
    ensures GetNodeID(BuildKeepAliveServiceKey(service, nodeID)) == nodeID <==> ':' !in nodeID
    ensures forall s :: IsServiceNode(s, BuildKeepAliveServiceKey(service, nodeID)) <==> s == service
  {
    var rest := service + SEPARATOR + nodeID;
    SplitFirst(KEEP_ALIVE_SERVICE_PREFIX, rest);
    SplitFirst(service, nodeID);
    assert BuildKeepAliveServiceKey(service, nodeID) == KEEP_ALIVE_SERVICE_PREFIX + SEPARATOR + rest;
    FirstPartIff(nodeID);
  }

  lemma Unprefixed(prefix: string, a: string)
    ensures (prefix + SEPARATOR + a)[|prefix| + 1..] == a
  {}

  /** Different rooms, and different connections, have different keys. */
  lemma KeysAreInjective(a: string, b: string)
    ensures BuildRoomKey(a) == BuildRoomKey(b) <==> a == b
    ensures BuildRoomSetKeyOfService(a) == BuildRoomSetKeyOfService(b) <==> a == b
    ensures BuildRTSPConnectionSetKey(a) == BuildRTSPConnectionSetKey(b) <==> a == b
  {
    Unprefixed(ROOM_PREFIX, a);
    Unprefixed(ROOM_PREFIX, b);
    Unprefixed(ROOM_SET_PREFIX, a);
    Unprefixed(ROOM_SET_PREFIX, b);
    Unprefixed(RTSP_CONNECTION_SET_PREFIX, a);
    Unprefixed(RTSP_CONNECTION_SET_PREFIX, b);
  }

  /** A room and a set of rooms never share a key, so that deleting one leaves the other alone. */
  lemma RoomIsNoSet(room: string, connection: string)
    ensures BuildRoomKey(room) != BuildRoomSetKeyOfService(connection)
  {
    assert BuildRoomKey(room)[14] == ':' && BuildRoomSetKeyOfService(connection)[14] == '_';
  }
}
