/** The socket objects themselves, changed in place as unix.c does. */
module UnixSocket {
  import opened Common
  import opened SocketWorld

  class Socket {
    var state: State
    var conn: Socket?
    var buffer: array<bv8>
    var bufLen: nat
    /** The bytes waiting. */
    ghost var queue: seq<bv8>

    ghost predicate Buffered()
      reads this`buffer, this`bufLen, this`queue, buffer
    {
      buffer.Length == BUFFER_SIZE && |queue| == bufLen <= BUFFER_SIZE && queue == buffer[..bufLen]
    }

    constructor ()
      ensures state == Unconnected && conn == null && queue == []
      ensures fresh(buffer) && Buffered()
    {
      state, conn, bufLen, queue := Unconnected, null, 0, [];
      buffer := new bv8[BUFFER_SIZE](_ => 0);
    }
  }

  function Ref(s: Socket?): (r: Option<Socket>) {
    if s == null then None else Some(s)
  }

  /** The object s is what the world says it is. */
  ghost predicate Matches(s: Socket, v: Sock<Socket>)
    reads s, s.buffer
  {
    s.state == v.state && Ref(s.conn) == v.conn && s.queue == v.queue && s.Buffered()
  }

  /** All sockets of the system, and their world as a value. */
  class Sockets {
    ghost var world: World<Socket>
    /** Whose each buffer is. */
    ghost var owner: map<array<bv8>, Socket>

    /** The objects are what the world says, each with a buffer of its own. */
    ghost predicate Mirrored()
      reads this, world.Keys, set s | s in world.Keys :: s.buffer
    {
      forall s :: s in world ==> Matches(s, world[s]) && s.buffer in owner && owner[s.buffer] == s
    }

    ghost predicate Valid()
      reads this, world.Keys, set s | s in world.Keys :: s.buffer
    {
      Inv(world) && Mirrored()
    }

    constructor ()
      ensures Valid() && world == map[]
    {
      world, owner := map[], map[];
    }

    method Create() returns (s: Socket)
      requires Valid()
      modifies this
      ensures fresh(s) && Valid() && world == old(world)[s := NewSock()]
    {
      hide Inv, Socket.Buffered, Sockets.Mirrored;
      AllMatch();
      s := new Socket();
      CreateKeeps(world, s);
      world, owner := world[s := NewSock()], owner[s.buffer := s];
      Mirrors();
    }

    lemma Facts(s: Socket)
      requires Valid() && s in world
      ensures Inv(world) && Matches(s, world[s])
      ensures s.conn != null ==>
        s.conn in world && |world[s.conn].queue| <= BUFFER_SIZE && Matches(s.conn, world[s.conn])
    {
      ConnInWorld(world, s);
    }

    /** The objects follow in any case; the promises are kept exactly when no connected socket is left behind. */
    method ConnectTo(s: Socket, addr: Address<Socket>) returns (code: Code)
      requires Valid() && s in world && (addr.At? ==> addr.server in world)
      modifies this, s, if addr.At? then {addr.server} else {}
      ensures Mirrored() && (code, world) == Connect(old(world), s, addr)
      ensures Inv(world) <==> code != Done || old(MayConnect(world, s))
    {
      hide Inv, Connect, Sockets.Mirrored;
      Facts(s);
      ConnectKeepsExactly(world, s, addr);
      ConnectFields(world, s, addr);
      if addr.Malformed? {
        return Invalid;
      }
      if addr.Missing? {
        return NoEntry;
      }
      if addr.NotASocket? {
        return Refused;
      }
      var server := addr.server;
      Facts(server);
      if server.conn != null {
        return Busy;
      }
      ConnectAt(s, server);
      code := Done;
    }

    method ConnectAt(s: Socket, server: Socket)
      requires Mirrored() && s in world && server in world && server.conn == null
      modifies this, s, server
      ensures Mirrored() && world == Connect(old(world), s, At(server)).1
    {
      hide Connect, Socket.Buffered, Sockets.Mirrored;
      ConnectFields(world, s, At(server));
      AllMatch();
      JoinEnds(s, server, world, owner);
      world := Connect(world, s, At(server)).1;
      Mirrors();
    }

    lemma AllMatch()
      requires Mirrored()
      ensures forall x :: x in world ==> Matches(x, world[x]) && x.buffer in owner && owner[x.buffer] == x
    {
    }

    lemma Mirrors()
      requires forall x :: x in world ==> Matches(x, world[x]) && x.buffer in owner && owner[x.buffer] == x
      ensures Mirrored()
    {
    }

    /** One turn of the accept loop. Letting someone in keeps the promises exactly when it is another socket that
        was never joined. */
    method AcceptOne(s: Socket, newsock: Socket, memory: bool) returns (code: Code)
      requires Valid() && ForAccept(world, s, newsock)
      modifies this, s, newsock, s.conn
      ensures (old(world)[s].conn.Some? ==> old(world)[s].conn.value in old(world))
      ensures Mirrored() && (code, world) == Accept(old(world), s, newsock, memory)
      ensures Inv(world) <==> code != Done || old(MayAccept(world, s))
      ensures old(world)[s].conn.None? <==> code == Blocked
    {
      hide Inv, Accept, Sockets.Mirrored;
      Facts(s);
      AcceptKeepsExactly(world, s, newsock, memory);
      AcceptFields(world, s, newsock, memory);
      if s.conn == null {
        return Blocked;
      }
      if !memory {
        return NoMemory;
      }
      LetIn(s, newsock);
      code := Done;
    }

    /** Accept once a client is there. */
    method LetIn(s: Socket, newsock: Socket)
      requires Mirrored() && ForAccept(world, s, newsock) && s.conn != null && s.conn in world
      modifies this, s, newsock, s.conn
      ensures Mirrored() && world == Accept(old(world), s, newsock, true).1
    {
      hide Accept, Socket.Buffered, Sockets.Mirrored;
      AllMatch();
      JoinSockets(s, newsock, s.conn, world, owner);
      world, owner := Accept(world, s, newsock, true).1, owner[newsock.buffer := newsock];
      Mirrors();
    }

    /** None is -1. */
    method SendTo(s: Socket, data: seq<bv8>) returns (n: Option<nat>)
      requires Valid() && s in world
      modifies this, s.conn, if s.conn != null then {s.conn.buffer} else {}
      ensures (old(world)[s].conn.Some? ==>
        old(world)[s].conn.value in old(world) && |old(world)[old(world)[s].conn.value].queue| <= BUFFER_SIZE)
      ensures Valid() && (n, world) == Send(old(world), s, data)
      ensures n.Some? ==>
        && old(s.conn) != null && old(s.conn) in world && n.value <= |data|
        && (n.value == |data| || |world[old(s.conn)].queue| == 4096)
    {
      hide Inv, Send, Sockets.Mirrored;
      Facts(s);
      SendKeeps(world, s, data);
      SendFields(world, s, data);
      if s.state != Connected {
        return None;
      }
      if s.conn == null {
        return None;
      }
      var toCopy := |data|;
      if toCopy > BUFFER_SIZE - s.conn.bufLen {
        toCopy := BUFFER_SIZE - s.conn.bufLen;
      }
      Deliver(s, data, toCopy);
      n := Some(toCopy);
    }

    /** The copy into the peer's buffer; nothing at all when there is no room. */
    method Deliver(s: Socket, data: seq<bv8>, toCopy: nat)
      requires Mirrored() && s in world && s.state == Connected && s.conn != null && s.conn in world
      requires |s.conn.queue| <= BUFFER_SIZE && toCopy == Min(|data|, BUFFER_SIZE - |s.conn.queue|)
      modifies this, s.conn, s.conn.buffer
      ensures Mirrored() && world == Send(old(world), s, data).1
    {
      hide Send, Socket.Buffered, Sockets.Mirrored;
      AllMatch();
      assert Matches(s, world[s]) && Matches(s.conn, world[s.conn]);
      SendFields(world, s, data);
      Append(s.conn, data[..toCopy]);
      world := Send(world, s, data).1;
      Mirrors();
    }

    /** None is -1. */
    method ReceiveFrom(s: Socket, len: nat) returns (data: Option<seq<bv8>>)
      requires Valid() && s in world
      modifies this, s, s.buffer
      ensures Valid() && (data, world) == Receive(old(world), s, len)
      ensures data.Some? ==>
        |data.value| <= len && s in world && (|data.value| == len || world[s].queue == [])
    {
      hide Inv, Receive, Sockets.Mirrored;
      Facts(s);
      ReceiveKeeps(world, s, len);
      ReceiveFields(world, s, len);
      if s.state != Connected || s.bufLen == 0 {
        return None;
      }
      var toRead := if len < s.bufLen then len else s.bufLen;
      data := HandUp(s, len, toRead);
    }

    /** The copy out of the socket's buffer. */
    method HandUp(s: Socket, len: nat, toRead: nat) returns (data: Option<seq<bv8>>)
      requires Mirrored() && s in world && s.state == Connected && s.queue != [] && toRead == Min(len, |s.queue|)
      modifies this, s, s.buffer
      ensures Mirrored() && (data, world) == Receive(old(world), s, len)
    {
      hide Receive, Socket.Buffered, Sockets.Mirrored;
      ReceiveFields(world, s, len);
      AllMatch();
      var front := TakeFront(s, toRead);
      data := Some(front);
      world := Receive(world, s, len).1;
      Mirrors();
    }

    method ShutDown(s: Socket)
      requires Valid() && s in world
      modifies this, s
      ensures Valid() && world == Shutdown(old(world), s)
    {
      hide Inv, Socket.Buffered, Sockets.Mirrored;
      ShutdownKeeps(world, s);
      AllMatch();
      s.state := Disconnecting;
      s.conn := null;
      world := Shutdown(world, s);
      Mirrors();
    }
  }

  lemma ConnectedMatch(w: World<Socket>, s: Socket, server: Socket)
    requires s in w && server in w && w[server].conn.None?
    requires forall x :: x in w && x != s && x != server ==> Matches(x, w[x])
    requires s.state == Connecting && s.queue == w[s].queue && s.Buffered()
    requires server.conn == s && (s != server ==> s.conn == server && server.state == w[server].state)
    requires server.queue == w[server].queue && server.Buffered()
    ensures var w' := Connect(w, s, At(server)).1;
      w'.Keys == w.Keys && forall x :: x in w ==> Matches(x, w'[x])
  {
    hide Connect, Socket.Buffered;
    ConnectFields(w, s, At(server));
  }

  /** A connect while the sockets are what w says they are. */
  method JoinEnds(s: Socket, server: Socket, ghost w: World<Socket>, ghost owner: map<array<bv8>, Socket>)
    requires s in w && server in w && w[server].conn.None?
    requires forall x :: x in w ==> Matches(x, w[x]) && x.buffer in owner && owner[x.buffer] == x
    modifies s`conn, s`state, server`conn
    ensures
      var w' := Connect(w, s, At(server)).1;
      w'.Keys == w.Keys && forall x :: x in w ==> Matches(x, w'[x]) && x.buffer in owner && owner[x.buffer] == x
  {
    hide Connect, Socket.Buffered;
    assert server.state == w[server].state && server.queue == w[server].queue && server.Buffered();
    assert s.queue == w[s].queue && s.Buffered();
    hide Matches;
    PointTogether(s, server);
    ConnectedMatch(w, s, server);
  }

  /** What connect stores. */
  method PointTogether(s: Socket, server: Socket)
    modifies s`conn, s`state, server`conn
    ensures s.state == Connecting && server.conn == s && (s != server ==> s.conn == server)
  {
    s.conn := server;
    server.conn := s;
    s.state := Connecting;
  }

  lemma JoinedMatch(w: World<Socket>, s: Socket, newsock: Socket, client: Socket)
    requires ForAccept(w, s, newsock) && w[s].conn == Some(client) && client in w
    requires forall x :: x in w && x != newsock && x != s && x != client ==> Matches(x, w[x])
    requires newsock.state == Connected && newsock.conn == client && newsock.queue == [] && newsock.Buffered()
    requires s.state == (if client == s then Connected else w[s].state)
    requires s.conn == null && s.queue == w[s].queue && s.Buffered()
    requires client != s ==>
      client.state == Connected && client.conn == newsock && client.queue == w[client].queue && client.Buffered()
    ensures var w' := Accept(w, s, newsock, true).1;
      w'.Keys == w.Keys && forall x :: x in w ==> Matches(x, w'[x])
  {
    hide Accept, Socket.Buffered;
    AcceptFields(w, s, newsock, true);
  }

  /** The accept of a client while the sockets are what w says they are. */
  method JoinSockets(s: Socket, newsock: Socket, client: Socket, ghost w: World<Socket>,
                     ghost owner: map<array<bv8>, Socket>)
    requires ForAccept(w, s, newsock) && w[s].conn == Some(client) && client in w
    requires forall x :: x in w ==> Matches(x, w[x]) && x.buffer in owner && owner[x.buffer] == x
    modifies newsock, client, s
    ensures
      var w', owner' := Accept(w, s, newsock, true).1, owner[newsock.buffer := newsock];
      w'.Keys == w.Keys && forall x :: x in w ==> Matches(x, w'[x]) && x.buffer in owner' && owner'[x.buffer] == x
  {
    hide Accept, Socket.Buffered;
    assert s.state == w[s].state && s.queue == w[s].queue && s.Buffered();
    assert client.queue == w[client].queue && client.Buffered();
    hide Matches;
    PointBack(s, newsock, client);
    JoinedMatch(w, s, newsock, client);
  }

  /** What accept stores: a new buffer for newsock, and the two ends pointing at each other. */
  method PointBack(s: Socket, newsock: Socket, client: Socket)
    requires newsock != s && newsock != client
    modifies newsock`buffer, newsock`bufLen, newsock`queue, newsock`state, newsock`conn, client`state, client`conn
    modifies s`conn
    ensures fresh(newsock.buffer) && newsock.Buffered() && newsock.queue == []
    ensures newsock.state == Connected && newsock.conn == client && client.state == Connected
    ensures client.conn == if client == s then null else newsock
    ensures s.conn == null
  {
    newsock.buffer := new bv8[BUFFER_SIZE](_ => 0);
    newsock.bufLen, newsock.queue := 0, [];
    newsock.state := Connected;
    newsock.conn := client;
    client.state := Connected;
    client.conn := newsock;
    s.conn := null;
  }

  /** The first n bytes out of the buffer, the rest moved to its start. */
  method TakeFront(s: Socket, n: nat) returns (front: seq<bv8>)
    requires s.Buffered() && n <= |s.queue|
    modifies s`bufLen, s`queue, s.buffer
    ensures s.Buffered() && front == old(s.queue)[..n] && s.queue == old(s.queue)[n..]
  {
    front := s.buffer[..n];
    if n < s.bufLen {
      MoveDown(s.buffer, n, s.bufLen - n);
    }
    s.bufLen, s.queue := s.bufLen - n, s.queue[n..];
  }

  method Append(peer: Socket, data: seq<bv8>)
    requires peer.Buffered() && |peer.queue| + |data| <= BUFFER_SIZE
    modifies peer`bufLen, peer`queue, peer.buffer
    ensures peer.Buffered() && peer.queue == old(peer.queue) + data
  {
    if |data| == 0 {
      return;
    }
    CopyIn(peer.buffer, peer.bufLen, data);
    peer.bufLen, peer.queue := peer.bufLen + |data|, peer.queue + data;
  }

  lemma ConnInWorld<K>(w: World<K>, s: K)
    requires Inv(w) && s in w
    ensures w[s].conn.Some? ==> w[s].conn.value in w && |w[w[s].conn.value].queue| <= BUFFER_SIZE
  {
    assert w[s].conn.Some? ==> Accounted(w, w[s].conn.value);
  }

  method CopyIn(buffer: array<bv8>, at: nat, data: seq<bv8>)
    requires at + |data| <= buffer.Length
    modifies buffer
    ensures buffer[..at + |data|] == old(buffer[..at]) + data
  {
    var k := 0;
    while k < |data|
      invariant 0 <= k <= |data|
      invariant buffer[..at] == old(buffer[..at])
      invariant buffer[at..at + k] == data[..k]
    {
      buffer[at + k] := data[k];
      k := k + 1;
    }
    assert buffer[..at + |data|] == buffer[..at] + buffer[at..at + |data|];
  }

  /** memmove(buffer, buffer + from, n). */
  method MoveDown(buffer: array<bv8>, from: nat, n: nat)
    requires from + n <= buffer.Length
    modifies buffer
    ensures buffer[..n] == old(buffer[from..from + n])
  {
    var k := 0;
    ghost var was: seq<bv8> := buffer[..];
    while k < n
      invariant 0 <= k <= n
      invariant buffer[..k] == was[from..from + k]
      invariant forall j :: k <= j < buffer.Length ==> buffer[j] == was[j]
    {
      buffer[k] := buffer[from + k];
      k := k + 1;
    }
  }
}
