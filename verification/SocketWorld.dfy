/** AF_UNIX stream sockets on values: what connect, accept, send, receive and shutdown do to all sockets, and
    what holds however they interleave. Sockets are named by any type K. */
module SocketWorld {
  import opened Common

  const BUFFER_SIZE: nat := 4096

  datatype State = Unconnected | Connecting | Connected | Disconnecting

  /** state, conn and the buffered bytes are the program's. The rest is history: the other end from the accept
      that joined the two on, where connect led, the bytes its sends took over and its receives gave out. */
  datatype Sock<K> = Sock(state: State, conn: Option<K>, queue: seq<bv8>,
                          partner: Option<K>, target: Option<K>, sent: seq<bv8>, received: seq<bv8>)

  type World<K> = map<K, Sock<K>>

  function NewSock<K>(): (s: Sock<K>) {
    Sock(Unconnected, None, [], None, None, [], [])
  }

  // ----- the operations -----

  datatype Code = Done | Invalid | NoEntry | Refused | Busy | Blocked | NoMemory

  /** What the lookup of the address gives. */
  datatype Address<+K> = Malformed | Missing | NotASocket | At(server: K)

  function Connect<K>(w: World<K>, s: K, addr: Address<K>): (r: (Code, World<K>))
    requires s in w && (addr.At? ==> addr.server in w)
  {
    match addr
    case Malformed => (Invalid, w)
    case Missing => (NoEntry, w)
    case NotASocket => (Refused, w)
    case At(server) =>
      if w[server].conn.Some? then (Busy, w)
      else
        var w1 := w[s := w[s].(conn := Some(server), target := Some(server))];
        var w2 := w1[server := w1[server].(conn := Some(s))];
        (Done, w2[s := w2[s].(state := Connecting)])
  }

  /** One turn of accept: Blocked while nobody asked to be let in. */
  function Accept<K>(w: World<K>, s: K, newsock: K, memory: bool): (r: (Code, World<K>))
    requires s in w && newsock in w && newsock != s && (w[s].conn.Some? ==> w[s].conn.value in w)
  {
    if w[s].conn.None? then (Blocked, w)
    else if !memory then (NoMemory, w)
    else
      var client := w[s].conn.value;
      var end := w[newsock].(queue := [], state := Connected, conn := Some(client), partner := Some(client));
      var w1 := w[newsock := end];
      var w2 := w1[client := w1[client].(state := Connected, conn := Some(newsock), partner := Some(newsock))];
      (Done, w2[s := w2[s].(conn := None)])
  }

  function Min(a: nat, b: nat): (r: nat) {
    if a < b then a else b
  }

  /** The bytes taken over, None for -1. */
  function Send<K>(w: World<K>, s: K, data: seq<bv8>): (r: (Option<nat>, World<K>))
    requires s in w && (w[s].conn.Some? ==> w[s].conn.value in w && |w[w[s].conn.value].queue| <= BUFFER_SIZE)
  {
    if w[s].state != Connected || w[s].conn.None? then (None, w)
    else
      var peer := w[s].conn.value;
      var n := Min(|data|, BUFFER_SIZE - |w[peer].queue|);
      var w1 := w[peer := w[peer].(queue := w[peer].queue + data[..n])];
      (Some(n), w1[s := w1[s].(sent := w1[s].sent + data[..n])])
  }

  function Receive<K>(w: World<K>, s: K, len: nat): (r: (Option<seq<bv8>>, World<K>))
    requires s in w
  {
    if w[s].state != Connected || w[s].queue == [] then (None, w)
    else
      var n := Min(len, |w[s].queue|);
      (Some(w[s].queue[..n]), w[s := w[s].(queue := w[s].queue[n..], received := w[s].received + w[s].queue[..n])])
  }

  function Shutdown<K>(w: World<K>, s: K): (r: World<K>)
    requires s in w
  {
    w[s := w[s].(state := Disconnecting, conn := None)]
  }

  lemma ConnectFields<K>(w: World<K>, s: K, addr: Address<K>)
    requires s in w && (addr.At? ==> addr.server in w)
    ensures var (code, w') := Connect(w, s, addr);
      && code == (match addr case Malformed => Invalid case Missing => NoEntry case NotASocket => Refused
                  case At(server) => if w[server].conn.Some? then Busy else Done)
      && (code != Done ==> w' == w)
      && (code == Done ==>
            && w'.Keys == w.Keys
            && (forall x :: x in w && x != s && x != addr.server ==> w'[x] == w[x])
            && w'[s] == w[s].(conn := Some(addr.server), target := Some(addr.server), state := Connecting)
            && (s != addr.server ==> w'[addr.server] == w[addr.server].(conn := Some(s))))
  {
  }

  lemma AcceptFields<K>(w: World<K>, s: K, newsock: K, memory: bool)
    requires s in w && newsock in w && newsock != s
    requires w[s].conn.Some? ==> w[s].conn.value in w && w[s].conn.value != newsock
    ensures var (code, w') := Accept(w, s, newsock, memory);
      && code == (if w[s].conn.None? then Blocked else if !memory then NoMemory else Done)
      && (code != Done ==> w' == w)
      && (code == Done ==>
            var client := w[s].conn.value;
            && w'.Keys == w.Keys
            && (forall x :: x in w && x != s && x != newsock && x != client ==> w'[x] == w[x])
            && w'[newsock] ==
               w[newsock].(queue := [], state := Connected, conn := Some(client), partner := Some(client))
            && w'[s] == (if client == s then w[s].(state := Connected, conn := None, partner := Some(newsock))
                         else w[s].(conn := None))
            && (client != s ==>
                  w'[client] == w[client].(state := Connected, conn := Some(newsock), partner := Some(newsock))))
  {
  }

  /** Only bytes moved. */
  predicate SameRoles<K(==)>(w: World<K>, w': World<K>) {
    && w'.Keys == w.Keys
    && forall x :: x in w ==>
         w'[x].state == w[x].state && w'[x].conn == w[x].conn
         && w'[x].partner == w[x].partner && w'[x].target == w[x].target
  }

  lemma SendFields<K>(w: World<K>, s: K, data: seq<bv8>)
    requires s in w && (w[s].conn.Some? ==> w[s].conn.value in w && |w[w[s].conn.value].queue| <= BUFFER_SIZE)
    ensures var (n, w') := Send(w, s, data);
      && (n.None? <==> w[s].state != Connected || w[s].conn.None?)
      && (n.None? ==> w' == w)
      && (n.Some? ==>
            var peer := w[s].conn.value;
            && n.value == Min(|data|, BUFFER_SIZE - |w[peer].queue|)
            && w'.Keys == w.Keys
            && (forall x :: x in w && x !in {s, peer} ==> w'[x] == w[x])
            && SameRoles(w, w')
            && w'[peer].queue == w[peer].queue + data[..n.value]
            && (s != peer ==> w'[s].queue == w[s].queue))
  {
  }

  lemma ReceiveFields<K>(w: World<K>, s: K, len: nat)
    requires s in w
    ensures var (data, w') := Receive(w, s, len);
      && (data.None? <==> w[s].state != Connected || w[s].queue == [])
      && (data.None? ==> w' == w)
      && (data.Some? ==>
            var n := Min(len, |w[s].queue|);
            && data.value == w[s].queue[..n] && w'.Keys == w.Keys
            && (forall x :: x in w && x != s ==> w'[x] == w[x])
            && SameRoles(w, w') && w'[s].queue == w[s].queue[n..])
  {
  }

  // ----- what is promised of every socket -----

  predicate Closed<K>(w: World<K>) {
    forall s :: s in w ==>
      (w[s].conn.Some? ==> w[s].conn.value in w) && (w[s].partner.Some? ==> w[s].partner.value in w)
  }

  /** A connected socket is connected to the one it was joined to, which is connected too or has shut down. */
  predicate Symmetric<K(==)>(w: World<K>, s: K)
    requires s in w && Closed(w)
  {
    w[s].state == Connected ==>
      w[s].partner.Some? && w[s].conn == w[s].partner && w[w[s].partner.value].state in {Connected, Disconnecting}
  }

  /** Two joined sockets know each other, and what one sent is what the other received and still has waiting. A
      socket never joined has moved no bytes. */
  predicate Accounted<K(==)>(w: World<K>, s: K)
    requires s in w && Closed(w)
  {
    && |w[s].queue| <= BUFFER_SIZE && (w[s].state == Unconnected ==> w[s].partner.None?)
    && (w[s].partner.None? ==> w[s].sent == [] && w[s].received == [] && w[s].queue == [])
    && (w[s].partner.Some? ==>
          var p := w[s].partner.value;
          p != s && w[p].partner == Some(s) && w[s].sent == w[p].received + w[p].queue)
  }

  predicate Inv<K(==)>(w: World<K>) {
    Closed(w) && forall s :: s in w ==> Symmetric(w, s) && Accounted(w, s)
  }

  /** Until one of them shuts down, connected sockets point at each other. */
  lemma SymmetricUntilShutdown<K>(w: World<K>, s: K)
    requires Inv(w) && s in w && w[s].state == Connected
    ensures w[s].conn.Some? && w[s].conn.value in w && w[s].conn.value != s
    ensures var p := w[s].conn.value;
      w[p].state in {Connected, Disconnecting} && (w[p].state == Connected ==> w[p].conn == Some(s))
  {
    assert Symmetric(w, s) && Accounted(w, s) && Symmetric(w, w[s].partner.value);
  }

  /** From the accept that joined two sockets on, also after either shut down: each has got a prefix of what the
      other sent; the rest waits in its buffer. */
  lemma DeliveredInOrder<K>(w: World<K>, s: K)
    requires Inv(w) && s in w && w[s].partner.Some?
    ensures w[s].partner.value in w && w[w[s].partner.value].partner == Some(s)
    ensures var sender := w[w[s].partner.value];
      && |w[s].received| <= |sender.sent| <= |w[s].received| + 4096
      && sender.sent == w[s].received + w[s].queue && |w[s].queue| <= 4096
      && sender.sent[..|w[s].received|] == w[s].received
  {
    assert Accounted(w, s) && Accounted(w, w[s].partner.value);
  }

  // ----- every operation keeps it, or exactly when -----

  /** No connected socket is joined to s. */
  predicate MayConnect<K(==)>(w: World<K>, s: K)
    requires s in w && Closed(w)
  {
    w[s].partner.Some? ==> w[w[s].partner.value].state != Connected
  }

  /** A connect keeps the promises exactly when it is refused or leaves no connected socket behind: the code does
      not ask what state the socket is in. */
  lemma ConnectKeepsExactly<K>(w: World<K>, s: K, addr: Address<K>)
    requires Inv(w) && s in w && (addr.At? ==> addr.server in w)
    ensures Inv(Connect(w, s, addr).1) <==> !Connect(w, s, addr).0.Done? || MayConnect(w, s)
  {
    hide Connect, Symmetric, Accounted;
    ConnectFields(w, s, addr);
    var (code, w') := Connect(w, s, addr);
    if code.Done? {
      assert addr == At(addr.server);
      assert Symmetric(w, s) && Accounted(w, s) && Symmetric(w, addr.server) && Accounted(w, addr.server);
      ConnectCloses(w, s, addr.server);
      if MayConnect(w, s) {
        forall x | x in w'
          ensures Symmetric(w', x) && Accounted(w', x)
        {
          ConnectKeepsOne(w, s, addr.server, x);
        }
      } else {
        LeftBehind(w, s, addr.server);
      }
    }
  }

  predicate CanConnect<K(==)>(w: World<K>, s: K, server: K)
    requires Closed(w)
  {
    && s in w && server in w && w[server].conn.None?
    && Symmetric(w, s) && Accounted(w, s) && Symmetric(w, server) && Accounted(w, server)
  }

  lemma ConnectCloses<K>(w: World<K>, s: K, server: K)
    requires Closed(w) && s in w && server in w && w[server].conn.None?
    ensures Closed(Connect(w, s, At(server)).1)
  {
    hide Connect;
    ConnectFields(w, s, At(server));
  }

  lemma ConnectKeepsOne<K>(w: World<K>, s: K, server: K, x: K)
    requires Closed(w) && CanConnect(w, s, server) && MayConnect(w, s)
    requires x in w && Symmetric(w, x) && Accounted(w, x)
    ensures var w' := Connect(w, s, At(server)).1; Closed(w') && Symmetric(w', x) && Accounted(w', x)
  {
    hide Connect;
    ConnectFields(w, s, At(server));
    ConnectCloses(w, s, server);
  }

  /** The socket that s was joined to stays connected to one that is connecting. */
  lemma LeftBehind<K>(w: World<K>, s: K, server: K)
    requires Inv(w) && s in w && server in w && w[server].conn.None? && !MayConnect(w, s)
    ensures !Inv(Connect(w, s, At(server)).1)
  {
    hide Connect;
    ConnectFields(w, s, At(server));
    var p := w[s].partner.value;
    assert Accounted(w, s) && Symmetric(w, p) && Symmetric(w, s) && Symmetric(w, server);
    var w' := Connect(w, s, At(server)).1;
    assert Closed(w') ==> !Symmetric(w', p);
  }

  /** A new socket, made for the accept. */
  predicate ForAccept<K(==)>(w: World<K>, s: K, newsock: K) {
    s in w && newsock in w && newsock != s && w[newsock].state == Unconnected && w[s].conn != Some(newsock)
  }

  /** Whoever waits at s is another socket that was never joined to one. */
  predicate MayAccept<K(==)>(w: World<K>, s: K)
    requires s in w && Closed(w)
  {
    w[s].conn.Some? ==> w[s].conn.value != s && w[w[s].conn.value].partner.None?
  }

  /** An accept keeps the promises exactly when it lets nobody in or lets in another socket, never joined before;
      the code does not ask. */
  lemma AcceptKeepsExactly<K>(w: World<K>, s: K, newsock: K, memory: bool)
    requires Inv(w) && ForAccept(w, s, newsock)
    ensures var (code, w') := Accept(w, s, newsock, memory);
      Inv(w') <==> code != Done || MayAccept(w, s)
  {
    hide Accept, Symmetric, Accounted;
    AcceptFields(w, s, newsock, memory);
    var (code, w') := Accept(w, s, newsock, memory);
    if code.Done? {
      var client := w[s].conn.value;
      assert Symmetric(w, s) && Accounted(w, s) && Symmetric(w, newsock) && Accounted(w, newsock);
      assert Symmetric(w, client) && Accounted(w, client);
      AcceptCloses(w, s, newsock);
      if MayAccept(w, s) {
        forall x | x in w'
          ensures Symmetric(w', x) && Accounted(w', x)
        {
          AcceptKeepsOne(w, s, newsock, x);
        }
      } else {
        JoinedTwice(w, s, newsock);
      }
    }
  }

  /** What an accept that lets someone in finds. */
  predicate LetsIn<K(==)>(w: World<K>, s: K, newsock: K)
    requires Closed(w)
  {
    && ForAccept(w, s, newsock) && w[s].conn.Some? && MayAccept(w, s)
    && Symmetric(w, s) && Accounted(w, s) && Symmetric(w, newsock) && Accounted(w, newsock)
    && Symmetric(w, w[s].conn.value) && Accounted(w, w[s].conn.value)
  }

  lemma AcceptCloses<K>(w: World<K>, s: K, newsock: K)
    requires Closed(w) && ForAccept(w, s, newsock) && w[s].conn.Some?
    ensures Closed(Accept(w, s, newsock, true).1)
  {
    hide Accept;
    AcceptFields(w, s, newsock, true);
  }

  lemma AcceptKeepsOne<K>(w: World<K>, s: K, newsock: K, x: K)
    requires Closed(w) && LetsIn(w, s, newsock) && x in w && Symmetric(w, x) && Accounted(w, x)
    ensures var w' := Accept(w, s, newsock, true).1; Closed(w') && Symmetric(w', x) && Accounted(w', x)
  {
    hide Accept;
    AcceptFields(w, s, newsock, true);
    AcceptCloses(w, s, newsock);
  }

  /** A socket that accepts itself is connected to nobody; one that was joined before is joined to two. */
  lemma JoinedTwice<K>(w: World<K>, s: K, newsock: K)
    requires Inv(w) && ForAccept(w, s, newsock) && w[s].conn.Some? && !MayAccept(w, s)
    ensures !Inv(Accept(w, s, newsock, true).1)
  {
    hide Accept;
    AcceptFields(w, s, newsock, true);
    var client := w[s].conn.value;
    assert Accounted(w, client) && Accounted(w, newsock);
    var w' := Accept(w, s, newsock, true).1;
    if client == s {
      assert Closed(w') ==> !Symmetric(w', s);
    } else {
      var q := w[client].partner.value;
      assert w'[q].partner == Some(client);
      assert Closed(w') ==> !Accounted(w', q);
    }
  }

  lemma SendKeeps<K>(w: World<K>, s: K, data: seq<bv8>)
    requires Inv(w) && s in w
    ensures w[s].conn.Some? ==> w[s].conn.value in w && |w[w[s].conn.value].queue| <= BUFFER_SIZE
    ensures var (n, w') := Send(w, s, data);
      && Inv(w') && (n.Some? <==> w[s].state == Connected) && (n.None? ==> w' == w)
      && (n.Some? ==>
            var peer := w[s].conn.value;
            && peer != s && n.value <= |data| && w'[peer].queue == w[peer].queue + data[..n.value]
            && (n.value == |data| || |w'[peer].queue| == 4096)
            && w'[s].sent == w[s].sent + data[..n.value])
  {
    assert Accounted(w, s) && Symmetric(w, s);
    if w[s].conn.Some? {
      assert Accounted(w, w[s].conn.value);
    }
    var (n, w') := Send(w, s, data);
    if n.Some? {
      forall x | x in w'
        ensures Closed(w') && Symmetric(w', x) && Accounted(w', x)
      {
        SendKeepsOne(w, s, data, x);
      }
    }
  }

  lemma SendKeepsOne<K>(w: World<K>, s: K, data: seq<bv8>, x: K)
    requires Closed(w) && s in w && x in w && w[s].state == Connected && Accounted(w, s) && Symmetric(w, s)
    requires Accounted(w, w[s].conn.value) && Accounted(w, x) && Symmetric(w, x)
    ensures var w' := Send(w, s, data).1; Closed(w') && Symmetric(w', x) && Accounted(w', x)
  {
    var (n, w') := Send(w, s, data);
    var peer := w[s].conn.value;
    Appended(w[s].sent, w[peer].received, w[peer].queue, data[..n.value]);
  }

  lemma Appended(sent: seq<bv8>, received: seq<bv8>, queue: seq<bv8>, more: seq<bv8>)
    requires sent == received + queue
    ensures sent + more == received + (queue + more)
  {
  }

  lemma ReceiveKeeps<K>(w: World<K>, s: K, len: nat)
    requires Inv(w) && s in w
    ensures var (data, w') := Receive(w, s, len);
      && Inv(w') && (data.Some? <==> w[s].state == Connected && w[s].queue != []) && (data.None? ==> w' == w)
      && (data.Some? ==>
            && w[s].queue == data.value + w'[s].queue && w'[s].received == w[s].received + data.value
            && |data.value| <= len && (|data.value| == len || w'[s].queue == []))
  {
    ReceiveMoves(w, s, len);
    hide Receive, Symmetric, Accounted;
    var (data, w') := Receive(w, s, len);
    if data.Some? {
      assert Accounted(w, s) && Symmetric(w, s);
      forall x | x in w'
        ensures Closed(w') && Symmetric(w', x) && Accounted(w', x)
      {
        ReceiveKeepsOne(w, s, len, x);
      }
    }
  }

  lemma ReceiveMoves<K>(w: World<K>, s: K, len: nat)
    requires s in w
    ensures var (data, w') := Receive(w, s, len);
      && w'.Keys == w.Keys && (data.Some? <==> w[s].state == Connected && w[s].queue != [])
      && (data.None? ==> w' == w)
      && (data.Some? ==>
            && w[s].queue == data.value + w'[s].queue && w'[s].received == w[s].received + data.value
            && |data.value| <= len && (|data.value| == len || w'[s].queue == []))
  {
  }

  lemma ReceiveKeepsOne<K>(w: World<K>, s: K, len: nat, x: K)
    requires Closed(w) && s in w && x in w && w[s].state == Connected && Accounted(w, s) && Symmetric(w, s)
    requires Accounted(w, x) && Symmetric(w, x)
    ensures var w' := Receive(w, s, len).1; Closed(w') && Symmetric(w', x) && Accounted(w', x)
  {
    Moved(w[s].received, w[s].queue, Min(len, |w[s].queue|));
  }

  lemma Moved(received: seq<bv8>, queue: seq<bv8>, n: nat)
    requires n <= |queue|
    ensures received + queue[..n] + queue[n..] == received + queue
  {
  }

  lemma ShutdownKeeps<K>(w: World<K>, s: K)
    requires Inv(w) && s in w
    ensures var w' := Shutdown(w, s);
      && Inv(w') && w'.Keys == w.Keys && (forall x :: x in w && x != s ==> w'[x] == w[x])
      && w'[s] == w[s].(state := Disconnecting, conn := None)
      && (forall data :: Send(w', s, data) == (None, w')) && forall len :: Receive(w', s, len) == (None, w')
  {
    var w' := Shutdown(w, s);
    assert Accounted(w, s) && Symmetric(w, s);
    forall x | x in w'
      ensures Symmetric(w', x) && Accounted(w', x)
    {
      assert Accounted(w, x) && Symmetric(w, x);
    }
  }

  // ----- every interleaving -----

  datatype Op<K> = DoCreate(s: K) | DoConnect(s: K, addr: Address<K>) | DoAccept(s: K, newsock: K, memory: bool)
                 | DoSend(s: K, data: seq<bv8>) | DoReceive(s: K, len: nat) | DoShutdown(s: K)

  /** The operations can be asked for: they name sockets there are, and accept a new one. */
  predicate Possible<K(==)>(w: World<K>, op: Op<K>) {
    match op
    case DoCreate(s) => s !in w
    case DoConnect(s, addr) => s in w && (addr.At? ==> addr.server in w)
    case DoAccept(s, newsock, _) => ForAccept(w, s, newsock)
    case DoSend(s, _) => s in w
    case DoReceive(s, _) => s in w
    case DoShutdown(s) => s in w
  }

  /** What the code should ask before it connects or lets in, and does not. */
  predicate Guarded<K(==)>(w: World<K>, op: Op<K>)
    requires Inv(w) && Possible(w, op)
  {
    match op
    case DoConnect(s, addr) => Connect(w, s, addr).0.Done? ==> MayConnect(w, s)
    case DoAccept(s, newsock, memory) => memory ==> MayAccept(w, s)
    case _ => true
  }

  lemma OpDefined<K>(w: World<K>, op: Op<K>)
    requires Inv(w) && Possible(w, op)
    ensures op.DoAccept? ==> w[op.s].conn.Some? ==> w[op.s].conn.value in w
    ensures op.DoSend? ==>
      w[op.s].conn.Some? ==> w[op.s].conn.value in w && |w[w[op.s].conn.value].queue| <= BUFFER_SIZE
  {
    if op.DoSend? {
      SendKeeps(w, op.s, op.data);
    }
  }

  function Step<K(==)>(w: World<K>, op: Op<K>): (r: World<K>)
    requires Inv(w) && Possible(w, op)
  {
    OpDefined(w, op);
    match op
    case DoCreate(s) => w[s := NewSock()]
    case DoConnect(s, addr) => Connect(w, s, addr).1
    case DoAccept(s, newsock, memory) => Accept(w, s, newsock, memory).1
    case DoSend(s, data) => Send(w, s, data).1
    case DoReceive(s, len) => Receive(w, s, len).1
    case DoShutdown(s) => Shutdown(w, s)
  }

  /** Of every operation: it keeps the promises exactly when it is guarded. */
  lemma StepKeepsExactly<K>(w: World<K>, op: Op<K>)
    requires Inv(w) && Possible(w, op)
    ensures Inv(Step(w, op)) <==> Guarded(w, op)
  {
    match op
    case DoCreate(s) => CreateKeeps(w, s);
    case DoConnect(s, addr) => ConnectKeepsExactly(w, s, addr);
    case DoAccept(s, newsock, memory) =>
      AcceptKeepsExactly(w, s, newsock, memory);
      AcceptFields(w, s, newsock, memory);
    case DoSend(s, data) => SendKeeps(w, s, data);
    case DoReceive(s, len) => ReceiveKeeps(w, s, len);
    case DoShutdown(s) => ShutdownKeeps(w, s);
  }

  lemma CreateKeeps<K>(w: World<K>, s: K)
    requires Inv(w) && s !in w
    ensures Inv(w[s := NewSock()])
  {
    var w' := w[s := NewSock()];
    forall x | x in w'
      ensures Symmetric(w', x) && Accounted(w', x)
    {
      if x != s {
        assert Symmetric(w, x) && Accounted(w, x);
      }
    }
  }

  /** The run of an interleaving, None from the first step that is not possible or not guarded. */
  ghost function Run<K>(w: World<K>, ops: seq<Op<K>>): (r: Option<World<K>>)
    requires Inv(w)
    ensures r.Some? ==> Inv(r.value)
    decreases |ops|
  {
    hide Inv, Step, Guarded;
    if ops == [] then Some(w)
    else if !Possible(w, ops[0]) || !Guarded(w, ops[0]) then None
    else
      StepKeepsExactly(w, ops[0]);
      Run(Step(w, ops[0]), ops[1..])
  }

  /** From no sockets at all, whatever the interleaving: connected sockets point at each other until one shuts
      down, and between two sockets that were ever joined, shut down or not, the bytes sent in each direction
      are those received, in order, and at most a buffer more. */
  lemma EveryInterleaving<K>(ops: seq<Op<K>>, s: K)
    ensures Inv<K>(map[])
    ensures
      var r := Run<K>(map[], ops);
      r.Some? && s in r.value && r.value[s].state == Connected ==>
        && r.value[s].conn == r.value[s].partner && r.value[s].conn.Some? && r.value[s].conn.value in r.value
        && var p := r.value[r.value[s].conn.value];
        (p.state == Connected ==> p.conn == Some(s)) && p.state in {Connected, Disconnecting}
    ensures
      var r := Run<K>(map[], ops);
      r.Some? && s in r.value && r.value[s].partner.Some? ==>
        && r.value[s].partner.value in r.value
        && var p := r.value[r.value[s].partner.value];
        && p.partner == Some(s) && p.sent == r.value[s].received + r.value[s].queue && |r.value[s].queue| <= 4096
  {
    var r := Run<K>(map[], ops);
    if r.Some? && s in r.value {
      assert Symmetric(r.value, s);
      if r.value[s].state == Connected {
        SymmetricUntilShutdown(r.value, s);
      }
      if r.value[s].partner.Some? {
        DeliveredInOrder(r.value, s);
      }
    }
  }

  // ----- a use of sockets by their states alone -----

  /** c asked to be let in at s and has not been. */
  predicate Pending<K(==)>(w: World<K>, c: K, s: K)
    requires c in w
  {
    c != s && w[c].target == Some(s) && w[c].partner.None? && w[c].state in {Connecting, Disconnecting}
  }

  /** Whoever waits at a socket that is not itself a client asked for it, once. */
  predicate Waiting<K(==)>(w: World<K>, s: K)
    requires s in w && Closed(w)
  {
    && (w[s].state == Unconnected ==> w[s].target.None?)
    && (w[s].state !in {Connecting, Connected} && w[s].conn.Some? ==> Pending(w, w[s].conn.value, s))
  }

  predicate AllWaiting<K(==)>(w: World<K>)
    requires Closed(w)
  {
    forall s :: s in w ==> Waiting(w, s)
  }

  /** Connect is called on a socket never connected, accept on one that is not connecting or connected. */
  predicate Orderly<K(==)>(w: World<K>, op: Op<K>) {
    && Possible(w, op)
    && (op.DoConnect? ==> w[op.s].state == Unconnected)
    && (op.DoAccept? ==> w[op.s].state !in {Connecting, Connected})
  }

  lemma OrderlyIsGuarded<K>(w: World<K>, op: Op<K>)
    requires Inv(w) && AllWaiting(w) && Orderly(w, op)
    ensures Guarded(w, op)
  {
    if op.DoConnect? || op.DoAccept? {
      assert Accounted(w, op.s) && Waiting(w, op.s);
    }
  }

  lemma OrderlyKeepsWaiting<K>(w: World<K>, op: Op<K>)
    requires Inv(w) && AllWaiting(w) && Orderly(w, op)
    ensures Inv(Step(w, op)) && AllWaiting(Step(w, op))
  {
    hide Inv, Waiting, Step;
    OrderlyIsGuarded(w, op);
    StepKeepsExactly(w, op);
    var w' := Step(w, op);
    assert Closed(w) && Closed(w') by { InvCloses(w); InvCloses(w'); }
    forall x | x in w'
      ensures Waiting(w', x)
    {
      OneWaiting(w, op, x);
    }
  }

  lemma InvCloses<K>(w: World<K>)
    requires Inv(w)
    ensures Closed(w)
  {
  }

  lemma OneWaiting<K>(w: World<K>, op: Op<K>, x: K)
    requires Inv(w) && AllWaiting(w) && Orderly(w, op) && x in Step(w, op) && Closed(Step(w, op))
    ensures Waiting(Step(w, op), x)
  {
    hide Inv, Connect, Accept, Send, Receive, Waiting;
    OpDefined(w, op);
    InvCloses(w);
    assert x in w ==> Waiting(w, x);
    assert op.s in w ==> Waiting(w, op.s);
    match op
    case DoCreate(s) => CreateKeepsWaiting(w, s, x);
    case DoConnect(s, addr) =>
      ConnectFields(w, s, addr);
      ConnectKeepsWaiting(w, s, addr, x);
    case DoAccept(s, newsock, memory) =>
      AcceptFields(w, s, newsock, memory);
      AcceptKeepsWaiting(w, s, newsock, memory, x);
    case DoSend(s, data) =>
      SendFields(w, s, data);
      SameRolesWait(w, Send(w, s, data).1, x);
    case DoReceive(s, len) =>
      ReceiveFields(w, s, len);
      SameRolesWait(w, Receive(w, s, len).1, x);
    case DoShutdown(s) => ShutdownKeepsWaiting(w, s, x);
  }

  lemma CreateKeepsWaiting<K>(w: World<K>, s: K, x: K)
    requires Closed(w) && s !in w && (x in w ==> Waiting(w, x)) && (x in w || x == s)
    ensures var w' := w[s := NewSock()]; Closed(w') && Waiting(w', x)
  {
  }

  lemma SameRolesWait<K>(w: World<K>, w': World<K>, x: K)
    requires Closed(w) && SameRoles(w, w') && x in w && Waiting(w, x)
    ensures Closed(w') && Waiting(w', x)
  {
  }

  lemma ShutdownKeepsWaiting<K>(w: World<K>, s: K, x: K)
    requires Closed(w) && s in w && x in w && Waiting(w, x)
    ensures var w' := Shutdown(w, s); Closed(w') && Waiting(w', x)
  {
  }

  lemma ConnectKeepsWaiting<K>(w: World<K>, s: K, addr: Address<K>, x: K)
    requires Inv(w) && Orderly(w, DoConnect(s, addr)) && x in w && Waiting(w, x) && Waiting(w, s)
    ensures var w' := Connect(w, s, addr).1; x in w' && Closed(w') && Waiting(w', x)
  {
    hide Connect;
    ConnectFields(w, s, addr);
    assert Accounted(w, s);
  }

  lemma AcceptKeepsWaiting<K>(w: World<K>, s: K, newsock: K, memory: bool, x: K)
    requires Inv(w) && Orderly(w, DoAccept(s, newsock, memory)) && x in w && Waiting(w, x) && Waiting(w, s)
    ensures w[s].conn.Some? ==> w[s].conn.value in w
    ensures var w' := Accept(w, s, newsock, memory).1; x in w' && Closed(w') && Waiting(w', x)
  {
    hide Accept;
    AcceptFields(w, s, newsock, memory);
    assert Accounted(w, newsock);
  }

  /** The run of an interleaving, None from the first step that is not orderly. */
  ghost function OrderlyRun<K>(w: World<K>, ops: seq<Op<K>>): (r: Option<World<K>>)
    requires Inv(w) && AllWaiting(w)
    decreases |ops|
  {
    hide Inv, Step, AllWaiting;
    if ops == [] then Some(w)
    else if !Orderly(w, ops[0]) then None
    else
      OrderlyKeepsWaiting(w, ops[0]);
      OrderlyRun(Step(w, ops[0]), ops[1..])
  }

  /** Whoever looks at the states before calling connect and accept never meets an accept or a connect that
      breaks a promise, whatever the interleaving. */
  lemma {:induction false} OrderlyRunsAreGuarded<K>(w: World<K>, ops: seq<Op<K>>)
    requires Inv(w) && AllWaiting(w) && OrderlyRun(w, ops).Some?
    ensures Run(w, ops) == OrderlyRun(w, ops)
    decreases |ops|
  {
    hide Inv, Step, AllWaiting;
    if ops != [] {
      OrderlyIsGuarded(w, ops[0]);
      OrderlyKeepsWaiting(w, ops[0]);
      OrderlyRunsAreGuarded(Step(w, ops[0]), ops[1..]);
    }
  }

  // ----- inputs on which it goes wrong -----

  /** A server (0) lets a client (1) in as 2, and then there is another socket (3). */
  const JOINING: seq<Op<nat>> :=
    [DoCreate(0), DoCreate(1), DoConnect(1, At(0)), DoCreate(2), DoAccept(0, 2, true), DoCreate(3)]

  lemma Joined() returns (w: World<nat>)
    ensures Inv<nat>(map[]) && Run<nat>(map[], JOINING) == Some(w) && Inv(w)
    ensures w.Keys == {0, 1, 2, 3} && w[3] == NewSock()
    ensures w[1].state == Connected && w[1].conn == w[1].partner == Some(2)
    ensures w[2].state == Connected && w[2].conn == w[2].partner == Some(1)
  {
    hide Inv, Run;
    NothingHolds<nat>();
    var w1: World<nat> := map[0 := NewSock()];
    var w2 := w1[1 := NewSock()];
    var w3 := Connect(w2, 1, At(0)).1;
    var w4 := w3[2 := NewSock()];
    var w5 := Accept(w4, 0, 2, true).1;
    w := w5[3 := NewSock()];
    var o5: seq<Op<nat>> := [DoCreate(3)] + [];
    var o4 := [DoAccept(0, 2, true)] + o5;
    var o3 := [DoCreate(2)] + o4;
    var o2 := [DoConnect(1, At(0))] + o3;
    var o1 := [DoCreate(1)] + o2;
    OneStep(map[], DoCreate(0), w1, o1);
    OneStep(w1, DoCreate(1), w2, o2);
    OneStep(w2, DoConnect(1, At(0)), w3, o3);
    OneStep(w3, DoCreate(2), w4, o4);
    OneStep(w4, DoAccept(0, 2, true), w5, o5);
    OneStep(w5, DoCreate(3), w, []);
    assert [DoCreate(0)] + o1 == JOINING;
    RunEnds(w);
  }

  /** The client, which is connected, accepts too: it stays connected to nobody, without a shutdown. */
  lemma AcceptByConnectedClient()
    ensures Inv<nat>(map[])
    ensures
      var r := Run<nat>(map[], JOINING);
      && r.Some? && ForAccept(r.value, 1, 3) && r.value[1].state == Connected
      && r.value[1].conn.Some? && r.value[1].conn.value in r.value
      && var (code, w) := Accept(r.value, 1, 3, true);
      code == Done && !Inv(w) && w[1].state == Connected && w[1].conn.None?
  {
    hide Inv, Run;
    var w := Joined();
    AcceptKeepsExactly(w, 1, 3, true);
    AcceptFields(w, 1, 3, true);
  }

  /** The client connects once more: the socket it was joined to stays connected to one that is connecting. */
  lemma ConnectByConnectedClient()
    ensures Inv<nat>(map[])
    ensures
      var r := Run<nat>(map[], JOINING);
      && r.Some? && r.value.Keys == {0, 1, 2, 3}
      && var (code, w) := Connect(r.value, 1, At(3));
      code == Done && !Inv(w) && w.Keys == {0, 1, 2, 3} && w[2].state == Connected && w[2].conn == Some(1)
      && w[1].state == Connecting && w[1].conn == Some(3)
  {
    hide Inv, Run;
    var w := Joined();
    ConnectKeepsExactly(w, 1, At(3));
    ConnectFields(w, 1, At(3));
  }

  lemma NothingHolds<K>()
    ensures Inv<K>(map[])
  {
  }

  lemma RunEnds<K>(w: World<K>)
    requires Inv(w)
    ensures Run(w, []) == Some(w)
  {
  }

  lemma OneStep<K>(w: World<K>, op: Op<K>, w': World<K>, rest: seq<Op<K>>)
    requires Inv(w) && Possible(w, op) && Guarded(w, op) && w' == Step(w, op)
    ensures Inv(w') && Run(w, [op] + rest) == Run(w', rest)
  {
    hide Inv, Step, Guarded;
    StepKeepsExactly(w, op);
    assert ([op] + rest)[1..] == rest;
  }
}
