// proxy_manager (AsioNet/AsioNet/proxy_manager.cpp): the gateway's routing
// tables. Every accepted session starts in the unmanaged table under its
// uid; authentication promotes it into the client or the server table,
// swapping its default logic for a client or server logic; sends, kicks
// and the cleanup sweep go through the tables.
//
// The tables hold shared pointers to sessions, so a session reachable
// from two tables is one object: the model keeps the session objects in
// `sessions`, keyed by an identity of their own, and the tables map a uid
// to that identity. A session's uid is (uint32_t)clock() at construction
// (basic_async_session.cpp:24-27), so two sessions can share one.

module ProxyManagers {
  import opened NetUtils
  import opened Protocol
  import opened SessionLogic
  import opened SafeHashMaps

  /** The identity of a session object (what a session_sptr points at). */
  type SessionRef = nat

  /** What the manager reads from a session's logic. */
  datatype Logic =
    | DefaultLogic(info: ServerInfo)                     // default_session_logic and the server info it holds
    | ClientLogic(targetServerType: byte)                // client_session_logic::get_target_server_type
    | ServerLogic(serverId: ServerId, linkType: byte)    // server_session_logic::get_server_id, get_session_type
  {
    /** get_session_type of each logic. */
    function SessionType(): byte
    {
      match this
      case DefaultLogic(_) => SINGLE_SESSION_BEGIN
      case ClientLogic(_) => CLIENT_PROXY
      case ServerLogic(_, linkType) => linkType
    }
  }

  /** trans_to_server: the server logic inherits the server info, so it reports its cal_server_uid and link type. */
  function TransToServer(info: ServerInfo): Logic
  {
    ServerLogic(ServerUid(info.areaId, info.serverId, StrHash(info.platform)), info.linkType)
  }

  /** trans_to_client: the client logic inherits the server info; its target server type is the announced link type. */
  function TransToClient(info: ServerInfo): Logic
  {
    ClientLogic(info.linkType)
  }

  datatype Session = Session(uid: SessionUid, logic: Logic, closed: bool)

  /** What the manager asks of the sessions it finds. */
  datatype Action =
    | SendTo(session: SessionRef, msg: Outgoing)                        // async_send
    | SendMultiTo(session: SessionRef, head: Outgoing, msg: Outgoing)   // async_send_multi
    | Kick(session: SessionRef)                                         // kick
    | ConfirmConnect(server: SessionRef, client: SessionUid, ip: u32)   // server_session_logic::send_confirm_connect

  /** The three tables and the session objects they point at. */
  datatype Tables = Tables(unmanaged: map<SessionUid, SessionRef>, clients: map<SessionUid, SessionRef>,
                           servers: map<SessionUid, SessionRef>, sessions: map<SessionRef, Session>)

  /** Every entry points at a live session object filed under that object's uid. */
  predicate Filed(table: map<SessionUid, SessionRef>, sessions: map<SessionRef, Session>)
  {
    forall k | k in table :: table[k] in sessions && sessions[table[k]].uid == k
  }

  /**
   * The tables are consistent: entries point at sessions with their uid,
   * client entries at client logics and server entries at server logics.
   */
  predicate ValidTables(t: Tables)
  {
    Filed(t.unmanaged, t.sessions) && Filed(t.clients, t.sessions) && Filed(t.servers, t.sessions)
    && (forall k | k in t.clients :: t.sessions[t.clients[k]].logic.ClientLogic?)
    && (forall k | k in t.servers :: t.sessions[t.servers[k]].logic.ServerLogic?)
  }

  /**
   * Whether promoting uid can reach the cast to default_session_logic with
   * a logic that is not one: a server logic whose link type is
   * SINGLE_SESSION_BEGIN passes the type test, and the cast then yields null.
   */
  predicate CastSafe(t: Tables, uid: SessionUid)
    requires ValidTables(t)
  {
    uid in t.unmanaged && t.sessions[t.unmanaged[uid]].logic.SessionType() == SINGLE_SESSION_BEGIN
    ==> t.sessions[t.unmanaged[uid]].logic.DefaultLogic?
  }

  /**
   * move_client_available / move_server_available as written: a uid that
   * is not unmanaged is only logged; erase leaves the unmanaged entry in
   * place; a logic that is not the default one stops the promotion; the
   * session's logic is swapped and the session filed in the client or
   * server table, unless that uid is already there.
   */
  function Move(t: Tables, uid: SessionUid, toServer: bool, eraseWorks: bool): (r: Tables)
    requires ValidTables(t) && CastSafe(t, uid)
    ensures ValidTables(r)
    ensures uid !in t.unmanaged ==> r == t
    ensures r.clients.Keys == t.clients.Keys || (!toServer && r.clients.Keys == t.clients.Keys + {uid})
    ensures r.servers.Keys == t.servers.Keys || (toServer && r.servers.Keys == t.servers.Keys + {uid})
    ensures !eraseWorks ==> r.unmanaged == t.unmanaged
    ensures eraseWorks && uid in t.unmanaged ==> r.unmanaged == t.unmanaged - {uid}
  {
    if uid !in t.unmanaged then t
    else
      var s := t.unmanaged[uid];
      var t0 := if eraseWorks then t.(unmanaged := t.unmanaged - {uid}) else t;
      var logic := t.sessions[s].logic;
      if logic.SessionType() != SINGLE_SESSION_BEGIN then t0
      else Promote(t0, uid, s, toServer)
  }

  /** The logic swap and the filing of session s under uid, once the type test has passed. */
  function Promote(t0: Tables, uid: SessionUid, s: SessionRef, toServer: bool): (r: Tables)
    requires ValidTables(t0) && s in t0.sessions && t0.sessions[s].uid == uid && t0.sessions[s].logic.DefaultLogic?
    ensures ValidTables(r) && r.unmanaged == t0.unmanaged
    ensures r.clients.Keys == t0.clients.Keys || (!toServer && r.clients.Keys == t0.clients.Keys + {uid})
    ensures r.servers.Keys == t0.servers.Keys || (toServer && r.servers.Keys == t0.servers.Keys + {uid})
    ensures toServer ==> uid in r.servers
    ensures !toServer ==> uid in r.clients
  {
    var logic := t0.sessions[s].logic;
    var t1 := SwapLogic(t0, s, if toServer then TransToServer(logic.info) else TransToClient(logic.info));
    if toServer then (if uid in t1.servers then t1 else t1.(servers := t1.servers[uid := s]))
    else (if uid in t1.clients then t1 else t1.(clients := t1.clients[uid := s]))
  }

  /** Replacing the logic of a session no client or server entry points at keeps the tables consistent. */
  function SwapLogic(t0: Tables, s: SessionRef, logic: Logic): (r: Tables)
    requires ValidTables(t0) && s in t0.sessions && t0.sessions[s].logic.DefaultLogic?
    ensures ValidTables(r) && r.unmanaged == t0.unmanaged && r.clients == t0.clients && r.servers == t0.servers
    ensures r.sessions == t0.sessions[s := t0.sessions[s].(logic := logic)]
  {
    t0.(sessions := t0.sessions[s := t0.sessions[s].(logic := logic)])
  }

  /**
   * As written, a promoted default session stays in the unmanaged table
   * while it is also filed as a server (or client).
   */
  lemma PromotionKeepsUnmanagedEntry(t: Tables, uid: SessionUid, toServer: bool)
    requires ValidTables(t) && uid in t.unmanaged && t.sessions[t.unmanaged[uid]].logic.DefaultLogic?
    requires uid !in t.servers && uid !in t.clients
    ensures var r := Move(t, uid, toServer, false);
            uid in r.unmanaged && (if toServer then uid in r.servers else uid in r.clients)
            && r.unmanaged[uid] == (if toServer then r.servers[uid] else r.clients[uid])
  {
  }

  /** With a working erase, a promoted session leaves the unmanaged table and is filed once, with the new logic. */
  lemma PromotionIntended(t: Tables, uid: SessionUid, toServer: bool)
    requires ValidTables(t) && uid in t.unmanaged && t.sessions[t.unmanaged[uid]].logic.DefaultLogic?
    requires uid !in t.servers && uid !in t.clients
    ensures var r := Move(t, uid, toServer, true);
            var s := t.unmanaged[uid];
            var info := t.sessions[s].logic.info;
            uid !in r.unmanaged && (if toServer then uid in r.servers && r.servers[uid] == s
                                   else uid in r.clients && r.clients[uid] == s)
            && r.sessions[s].logic == (if toServer then TransToServer(info) else TransToClient(info))
  {
  }

  /** The result of verify_authentication: the verdict, the target uid, the calls it made, the tables after. */
  datatype VerifyOutcome = VerifyOutcome(ok: bool, target: SessionUid, actions: seq<Action>, tables: Tables)

  /**
   * verify_authentication as written. The CLIENT_PROXY search runs inside
   * complex_operation, which never calls it, so no client is ever
   * accepted; a link type above MULTI_SESSION_BEGIN is accepted unless
   * its uid is already a server, and then promoted; anything else fails.
   */
  function VerifyAsWritten(t: Tables, sessionType: byte, target: SessionUid, uid: SessionUid): (r: VerifyOutcome)
    requires ValidTables(t) && CastSafe(t, uid)
    ensures ValidTables(r.tables) && r.target == target && r.actions == []
    ensures r.ok <==> sessionType > MULTI_SESSION_BEGIN && uid !in t.servers
    ensures !r.ok ==> r.tables == t
    ensures r.ok ==> r.tables == Move(t, uid, true, false)
  {
    if sessionType == CLIENT_PROXY then VerifyOutcome(false, target, [], t)
    else if sessionType > MULTI_SESSION_BEGIN then
      if uid in t.servers then VerifyOutcome(false, target, [], t)
      else VerifyOutcome(true, target, [], Move(t, uid, true, false))
    else VerifyOutcome(false, target, [], t)
  }

  /** Whether session object s is a server whose cal_server_uid is serverId. */
  predicate ServesId(sessions: map<SessionRef, Session>, s: SessionRef, serverId: ServerId)
  {
    s in sessions && sessions[s].logic.ServerLogic? && sessions[s].logic.serverId == serverId
  }

  /** `order` is an iteration order of the table: it lists every key of the table exactly once. */
  predicate IterationOrder<V>(order: seq<SessionUid>, table: map<SessionUid, V>)
  {
    && (forall k | k in order :: k in table)
    && (forall k | k in table :: k in order)
    && forall i, j | 0 <= i < j < |order| :: order[i] != order[j]
  }

  /** The search the find handler evidently performs over the server table in iteration order `order`: the last match wins. */
  function LastMatch(order: seq<SessionUid>, t: Tables, serverId: ServerId): (r: Option<SessionUid>)
    requires forall k | k in order :: k in t.servers
    ensures r.Some? <==> exists i | 0 <= i < |order| :: ServesId(t.sessions, t.servers[order[i]], serverId)
    ensures r.Some? ==> r.value in order && ServesId(t.sessions, t.servers[r.value], serverId)
  {
    if order == [] then None
    else
      var k := order[|order| - 1];
      if ServesId(t.sessions, t.servers[k], serverId) then Some(k)
      else
        var r := LastMatch(order[..|order| - 1], t, serverId);
        assert forall i | 0 <= i < |order| - 1 :: order[..|order| - 1][i] == order[i];
        r
  }

  /** Nothing in `order` after position i serves serverId. */
  lemma {:induction false} LastMatchIsLast(order: seq<SessionUid>, t: Tables, serverId: ServerId)
    requires forall k | k in order :: k in t.servers
    requires LastMatch(order, t, serverId).Some?
    ensures exists i | 0 <= i < |order| :: order[i] == LastMatch(order, t, serverId).value
              && forall j | i < j < |order| :: !ServesId(t.sessions, t.servers[order[j]], serverId)
  {
    var last := |order| - 1;
    var k := order[last];
    if ServesId(t.sessions, t.servers[k], serverId) {
      assert order[last] == LastMatch(order, t, serverId).value;
    } else {
      var front := order[..last];
      assert forall x | x in front :: x in order;
      LastMatchIsLast(front, t, serverId);
      var i :| 0 <= i < |front| && front[i] == LastMatch(front, t, serverId).value
               && forall j | i < j < |front| :: !ServesId(t.sessions, t.servers[front[j]], serverId);
      assert LastMatch(order, t, serverId) == LastMatch(front, t, serverId);
      forall j | i < j < |order| ensures !ServesId(t.sessions, t.servers[order[j]], serverId) {
        if j < last {
          assert order[j] == front[j];
        }
      }
      assert order[i] == LastMatch(order, t, serverId).value;
    }
  }

  /** Over an iteration order of the whole server table, the search finds a server exactly when some server in the table has the id. */
  lemma LastMatchOverTable(order: seq<SessionUid>, t: Tables, serverId: ServerId)
    requires IterationOrder(order, t.servers)
    ensures LastMatch(order, t, serverId).Some? <==> exists k | k in t.servers :: ServesId(t.sessions, t.servers[k], serverId)
  {
    if k :| k in t.servers && ServesId(t.sessions, t.servers[k], serverId) {
      var i :| 0 <= i < |order| && order[i] == k;
    }
  }

  /**
   * verify_authentication with the CLIENT_PROXY search actually run, the
   * server table visited in `order`: the last server with the requested id
   * becomes the target, gets a connect-confirm for this client, and the
   * client is promoted (with the erase as written).
   */
  function VerifyIntended(t: Tables, order: seq<SessionUid>, sessionType: byte, serverId: ServerId, target: SessionUid,
                          uid: SessionUid, ip: u32): (r: VerifyOutcome)
    requires ValidTables(t) && CastSafe(t, uid) && IterationOrder(order, t.servers)
    ensures ValidTables(r.tables)
    ensures sessionType == CLIENT_PROXY ==>
              (r.ok <==> exists k | k in t.servers :: ServesId(t.sessions, t.servers[k], serverId))
    ensures sessionType == CLIENT_PROXY && r.ok ==>
              r.target in t.servers && ServesId(t.sessions, t.servers[r.target], serverId)
              && r.actions == [ConfirmConnect(t.servers[r.target], uid, ip)] && r.tables == Move(t, uid, false, false)
    ensures sessionType == CLIENT_PROXY && !r.ok ==> r.target == target && r.actions == [] && r.tables == t
    ensures sessionType != CLIENT_PROXY ==> r == VerifyAsWritten(t, sessionType, target, uid)
  {
    LastMatchOverTable(order, t, serverId);
    if sessionType == CLIENT_PROXY then
      match LastMatch(order, t, serverId)
      case None => VerifyOutcome(false, target, [], t)
      case Some(k) => VerifyOutcome(true, k, [ConfirmConnect(t.servers[k], uid, ip)], Move(t, uid, false, false))
    else VerifyAsWritten(t, sessionType, target, uid)
  }

  /** Whether session object s is kicked by kick_server_peer(type): a client routed to that type, or a server of it. */
  predicate KickedFor(sessions: map<SessionRef, Session>, s: SessionRef, serverType: byte, clientSide: bool)
  {
    s in sessions
    && if clientSide then sessions[s].logic.ClientLogic? && sessions[s].logic.targetServerType == serverType
       else sessions[s].logic.SessionType() == serverType
  }

  /** The kicks one of kick_server_peer's handlers makes over a table visited in `order`. */
  function KicksOf(order: seq<SessionUid>, table: map<SessionUid, SessionRef>, sessions: map<SessionRef, Session>,
                   serverType: byte, clientSide: bool): (r: seq<Action>)
    requires forall k | k in order :: k in table
    ensures forall a | a in r :: a.Kick? && KickedFor(sessions, a.session, serverType, clientSide)
    ensures forall k | k in order && KickedFor(sessions, table[k], serverType, clientSide) :: Kick(table[k]) in r
  {
    if order == [] then []
    else
      var k := order[|order| - 1];
      var front := KicksOf(order[..|order| - 1], table, sessions, serverType, clientSide);
      assert forall j | j in order && j != k :: j in order[..|order| - 1];
      if KickedFor(sessions, table[k], serverType, clientSide) then front + [Kick(table[k])] else front
  }

  class ProxyManager {
    const unmanaged: SafeHashMap<SessionUid, SessionRef>
    const clients: SafeHashMap<SessionUid, SessionRef>
    const servers: SafeHashMap<SessionUid, SessionRef>
    /** The session objects the tables point at. */
    var sessions: map<SessionRef, Session>

    ghost function State(): Tables
      reads this, unmanaged, clients, servers
    {
      Tables(unmanaged.container, clients.container, servers.container, sessions)
    }

    ghost predicate Valid()
      reads this, unmanaged, clients, servers
    {
      unmanaged != clients && unmanaged != servers && clients != servers && ValidTables(State())
    }

    /** Three empty tables. */
    constructor ()
      ensures Valid() && State() == Tables(map[], map[], map[], map[])
      ensures fresh(unmanaged) && fresh(clients) && fresh(servers)
    {
      unmanaged := new SafeHashMap();
      clients := new SafeHashMap();
      servers := new SafeHashMap();
      sessions := map[];
    }

    /**
     * The accept completion of accept_a_session: a new session object with
     * a default logic (whose server info is whatever its pooled logic held)
     * is inserted in the unmanaged table under its uid, unless that uid is
     * already there.
     */
    method AcceptSession(s: SessionRef, uid: SessionUid, info: ServerInfo)
      requires Valid() && s !in sessions
      modifies this`sessions, unmanaged
      ensures Valid()
      ensures sessions == old(sessions)[s := Session(uid, DefaultLogic(info), false)]
      ensures unmanaged.container == if uid in old(unmanaged.container) then old(unmanaged.container)
                                     else old(unmanaged.container)[uid := s]
    {
      sessions := sessions[s := Session(uid, DefaultLogic(info), false)];
      var inserted := unmanaged.Insert(uid, s);
    }

    /** default_session_logic::verify_authentication storing the request's server info in a session's default logic. */
    method Announce(s: SessionRef, info: ServerInfo)
      requires Valid() && s in sessions && sessions[s].logic.DefaultLogic?
      modifies this`sessions
      ensures Valid() && sessions == old(sessions)[s := old(sessions)[s].(logic := DefaultLogic(info))]
    {
      sessions := sessions[s := sessions[s].(logic := DefaultLogic(info))];
    }

    /** move_server_available as written. */
    method MoveServerAvailable(uid: SessionUid)
      requires Valid() && CastSafe(State(), uid)
      modifies this`sessions, unmanaged, servers
      ensures Valid() && State() == Move(old(State()), uid, true, false)
    {
      var found, s := unmanaged.TryGet(uid, 0);
      if !found {
        return;
      }
      var erased := unmanaged.Erase(uid);
      var logic := sessions[s].logic;
      if logic.SessionType() != SINGLE_SESSION_BEGIN {
        return;
      }
      sessions := sessions[s := sessions[s].(logic := TransToServer(logic.info))];
      var inserted := servers.Insert(uid, s);
    }

    /** move_client_available as written. */
    method MoveClientAvailable(uid: SessionUid)
      requires Valid() && CastSafe(State(), uid)
      modifies this`sessions, unmanaged, clients
      ensures Valid() && State() == Move(old(State()), uid, false, false)
    {
      var found, s := unmanaged.TryGet(uid, 0);
      if !found {
        return;
      }
      var erased := unmanaged.Erase(uid);
      var logic := sessions[s].logic;
      if logic.SessionType() != SINGLE_SESSION_BEGIN {
        return;
      }
      sessions := sessions[s := sessions[s].(logic := TransToClient(logic.info))];
      var inserted := clients.Insert(uid, s);
    }

    /** verify_authentication as written; the target uid is returned as it is left. */
    method VerifyAuthentication(sessionType: byte, serverId: ServerId, target: SessionUid, uid: SessionUid, ip: u32)
      returns (ok: bool, targetAfter: SessionUid, actions: seq<Action>)
      requires Valid() && CastSafe(State(), uid)
      modifies this`sessions, unmanaged, clients, servers
      ensures Valid()
      ensures VerifyOutcome(ok, targetAfter, actions, State()) == VerifyAsWritten(old(State()), sessionType, target, uid)
    {
      targetAfter, actions := target, [];
      if sessionType == CLIENT_PROXY {
        var table := sessions;
        var find := (container: map<SessionUid, SessionRef>) =>
          exists k | k in container :: ServesId(table, container[k], serverId);
        servers.ComplexOperation(find);
        // `find` stays false: the handler never ran
        return false, targetAfter, actions;
      } else if sessionType > MULTI_SESSION_BEGIN {
        if servers.ContainsKey(uid) {
          return false, targetAfter, actions;
        }
        MoveServerAvailable(uid);
        return true, targetAfter, actions;
      }
      ok := false;
    }

    /**
     * verify_authentication with the CLIENT_PROXY search run over the server
     * table in `order`, the unordered_map's iteration order.
     */
    method VerifyAuthenticationIntended(sessionType: byte, serverId: ServerId, target: SessionUid, uid: SessionUid,
                                        ip: u32, order: seq<SessionUid>)
      returns (ok: bool, targetAfter: SessionUid, actions: seq<Action>)
      requires Valid() && CastSafe(State(), uid) && IterationOrder(order, servers.container)
      modifies this`sessions, unmanaged, clients, servers
      ensures Valid()
      ensures VerifyOutcome(ok, targetAfter, actions, State())
              == VerifyIntended(old(State()), order, sessionType, serverId, target, uid, ip)
    {
      if sessionType != CLIENT_PROXY {
        ok, targetAfter, actions := VerifyAuthentication(sessionType, serverId, target, uid, ip);
        return;
      }
      var found: Option<SessionUid> := None;
      for i := 0 to |order|
        invariant found == LastMatch(order[..i], State(), serverId)
      {
        var k := order[i];
        if ServesId(sessions, servers.container[k], serverId) {
          found := Some(k);
        }
        assert order[..i + 1][..i] == order[..i];
      }
      assert order[..|order|] == order;
      if found.None? {
        return false, target, [];
      }
      actions := [ConfirmConnect(servers.container[found.value], uid, ip)];
      MoveClientAvailable(uid);
      ok, targetAfter := true, found.value;
    }

    /** send_to_server: one send to the session filed under target, nothing for an unknown uid. */
    method SendToServer(target: SessionUid, msg: Outgoing) returns (actions: seq<Action>)
      requires Valid()
      ensures target !in servers.container ==> actions == []
      ensures target in servers.container ==>
                actions == [SendTo(servers.container[target], msg)] && sessions[servers.container[target]].uid == target
    {
      var found, s := servers.TryGet(target, 0);
      if !found {
        return [];
      }
      actions := [SendTo(s, msg)];
    }

    /** send_to_server_multi */
    method SendToServerMulti(target: SessionUid, head: Outgoing, msg: Outgoing) returns (actions: seq<Action>)
      requires Valid()
      ensures target !in servers.container ==> actions == []
      ensures target in servers.container ==>
                actions == [SendMultiTo(servers.container[target], head, msg)] && sessions[servers.container[target]].uid == target
    {
      var found, s := servers.TryGet(target, 0);
      if !found {
        return [];
      }
      actions := [SendMultiTo(s, head, msg)];
    }

    /** send_to_client */
    method SendToClient(target: SessionUid, msg: Outgoing) returns (actions: seq<Action>)
      requires Valid()
      ensures target !in clients.container ==> actions == []
      ensures target in clients.container ==>
                actions == [SendTo(clients.container[target], msg)] && sessions[clients.container[target]].uid == target
    {
      var found, s := clients.TryGet(target, 0);
      if !found {
        return [];
      }
      actions := [SendTo(s, msg)];
    }

    /** send_to_client_multi */
    method SendToClientMulti(target: SessionUid, head: Outgoing, msg: Outgoing) returns (actions: seq<Action>)
      requires Valid()
      ensures target !in clients.container ==> actions == []
      ensures target in clients.container ==>
                actions == [SendMultiTo(clients.container[target], head, msg)] && sessions[clients.container[target]].uid == target
    {
      var found, s := clients.TryGet(target, 0);
      if !found {
        return [];
      }
      actions := [SendMultiTo(s, head, msg)];
    }

    /** kick_one_client: true exactly when the uid is a client, which is then kicked. */
    method KickOneClient(uid: SessionUid) returns (ok: bool, actions: seq<Action>)
      requires Valid()
      ensures ok <==> uid in clients.container
      ensures ok ==> actions == [Kick(clients.container[uid])] && sessions[clients.container[uid]].logic.ClientLogic?
      ensures !ok ==> actions == []
    {
      var s;
      ok, s := clients.TryGet(uid, 0);
      actions := if ok then [Kick(s)] else [];
    }

    /** kick_server_peer as written: both searches run inside complex_operation, so nobody is kicked. */
    method KickServerPeer(serverType: byte) returns (ok: bool, actions: seq<Action>)
      ensures !ok && actions == []
    {
      var table := sessions;
      var kickClients := (container: map<SessionUid, SessionRef>) =>
        exists k | k in container :: KickedFor(table, container[k], serverType, true);
      clients.ComplexOperation(kickClients);
      var kickServers := (container: map<SessionUid, SessionRef>) =>
        exists k | k in container :: KickedFor(table, container[k], serverType, false);
      servers.ComplexOperation(kickServers);
      return false, [];
    }

    /**
     * kick_server_peer with its handlers run: every client routed to
     * serverType and every server of that type is kicked, the client table
     * visited in clientOrder and the server table in serverOrder. The
     * result is still false.
     */
    method KickServerPeerIntended(serverType: byte, clientOrder: seq<SessionUid>, serverOrder: seq<SessionUid>)
      returns (ok: bool, actions: seq<Action>)
      requires Valid()
      requires IterationOrder(clientOrder, clients.container) && IterationOrder(serverOrder, servers.container)
      ensures !ok
      ensures actions == KicksOf(clientOrder, clients.container, sessions, serverType, true)
                         + KicksOf(serverOrder, servers.container, sessions, serverType, false)
      ensures forall a | a in actions ::
                a.Kick? && (KickedFor(sessions, a.session, serverType, true) || KickedFor(sessions, a.session, serverType, false))
      ensures forall k | k in clients.container && KickedFor(sessions, clients.container[k], serverType, true) ::
                Kick(clients.container[k]) in actions
      ensures forall k | k in servers.container && KickedFor(sessions, servers.container[k], serverType, false) ::
                Kick(servers.container[k]) in actions
    {
      var kicks: seq<Action> := [];
      for i := 0 to |clientOrder|
        invariant kicks == KicksOf(clientOrder[..i], clients.container, sessions, serverType, true)
      {
        var s := clients.container[clientOrder[i]];
        if KickedFor(sessions, s, serverType, true) {
          kicks := kicks + [Kick(s)];
        }
        assert clientOrder[..i + 1][..i] == clientOrder[..i];
      }
      assert clientOrder[..|clientOrder|] == clientOrder;
      var serverKicks: seq<Action> := [];
      for i := 0 to |serverOrder|
        invariant serverKicks == KicksOf(serverOrder[..i], servers.container, sessions, serverType, false)
      {
        var s := servers.container[serverOrder[i]];
        if KickedFor(sessions, s, serverType, false) {
          serverKicks := serverKicks + [Kick(s)];
        }
        assert serverOrder[..i + 1][..i] == serverOrder[..i];
      }
      assert serverOrder[..|serverOrder|] == serverOrder;
      return false, kicks + serverKicks;
    }

    /**
     * The sweep clean_up_closed_session schedules, as written: the close
     * handler would only erase from its by-value copy of each table, and
     * complex_operation never calls it anyway; no table changes.
     */
    method CleanUpClosedSessions()
      ensures State() == old(State())
    {
      var table := sessions;
      var sweep := (container: map<SessionUid, SessionRef>) =>
        map k | k in container && (container[k] in table ==> !table[container[k]].closed) :: container[k];
      clients.ComplexOperation(sweep);
      servers.ComplexOperation(sweep);
    }

    /** The sweep as evidently intended: closed sessions leave the client and server tables, open ones stay. */
    method CleanUpClosedSessionsIntended()
      requires Valid()
      modifies clients, servers
      ensures Valid()
      ensures forall k | k in clients.container :: k in old(clients.container) && !sessions[clients.container[k]].closed
      ensures forall k | k in old(clients.container) && !sessions[old(clients.container)[k]].closed ::
                k in clients.container && clients.container[k] == old(clients.container)[k]
      ensures forall k | k in servers.container :: k in old(servers.container) && !sessions[servers.container[k]].closed
      ensures forall k | k in old(servers.container) && !sessions[old(servers.container)[k]].closed ::
                k in servers.container && servers.container[k] == old(servers.container)[k]
    {
      clients.container := map k | k in clients.container && !sessions[clients.container[k]].closed :: clients.container[k];
      servers.container := map k | k in servers.container && !sessions[servers.container[k]].closed :: servers.container[k];
    }
  }

  /**
   * As written, a client can never authenticate, whatever the tables hold:
   * the gateway never routes a client to a server.
   */
  lemma NoClientEverVerified(t: Tables, target: SessionUid, uid: SessionUid)
    requires ValidTables(t) && CastSafe(t, uid)
    ensures !VerifyAsWritten(t, CLIENT_PROXY, target, uid).ok
  {
  }

  /** With the search run, a client naming a registered server is accepted and routed to it. */
  lemma ClientVerifiedWhenServerRegistered(t: Tables, order: seq<SessionUid>, serverId: ServerId, target: SessionUid,
                                           uid: SessionUid, ip: u32, server: SessionUid)
    requires ValidTables(t) && CastSafe(t, uid) && IterationOrder(order, t.servers)
    requires server in t.servers && ServesId(t.sessions, t.servers[server], serverId)
    ensures var r := VerifyIntended(t, order, CLIENT_PROXY, serverId, target, uid, ip);
            r.ok && ServesId(t.sessions, t.servers[r.target], serverId)
  {
  }

  /** A server uid accepted once is rejected the second time. */
  lemma DuplicateServerRejected(t: Tables, sessionType: byte, target: SessionUid, uid: SessionUid)
    requires ValidTables(t) && CastSafe(t, uid) && sessionType > MULTI_SESSION_BEGIN
    requires uid in t.unmanaged && t.sessions[t.unmanaged[uid]].logic.DefaultLogic?
    requires t.sessions[t.unmanaged[uid]].logic.info.linkType == sessionType
    requires VerifyAsWritten(t, sessionType, target, uid).ok
    ensures var t1 := VerifyAsWritten(t, sessionType, target, uid).tables;
            CastSafe(t1, uid) && !VerifyAsWritten(t1, sessionType, target, uid).ok
  {
  }
}
