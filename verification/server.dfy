/**
 * The objects of lib/server.py: a listening server that keeps the list of its
 * live clients, and a client whose receive loop drives the handshake and the
 * framing. Sockets are replaced by logs: `sent` collects what `handle_packet`
 * sends, `delivered` the frames handed to `decode`/`handle_data`, and
 * `closed` records `socket.close()`. Threads and locks are left out: every
 * method runs to completion before another starts.
 */
module Server {
  import opened Wire
  import opened Protocol
  import opened ClientList

  /** Which application handler the server's clients carry (`LoginClient` or `MapClient`). */
  datatype Role = Login | Map

  /** The peer address `accept()` returns. */
  datatype Address = Address(host: string, port: nat)

  /** `StandardServer` with its `LoginServer`/`MapServer` subclass chosen by `role`. */
  class StandardServer {
    const port: nat
    const role: Role
    var clientList: seq<StandardClient>

    /** Every listed client is distinct, belongs to this server and is running. */
    ghost predicate Valid()
      reads this, clientList
    {
      && NoDup(clientList)
      && forall c :: c in clientList ==> c.master == this && c.running
    }

    constructor (port: nat, role: Role)
      ensures Valid() && clientList == []
      ensures this.port == port && this.role == role
    {
      this.port := port;
      this.role := role;
      clientList := [];
    }

    /** `handle_client`: build a client for the accepted socket and append it. */
    method HandleClient(address: Address) returns (c: StandardClient)
      requires Valid()
      modifies this
      ensures Valid()
      ensures fresh(c) && c.master == this && c.address == address
      ensures c.Snapshot() == Fresh() && !c.closed
      ensures clientList == old(clientList) + [c]
    {
      c := new StandardClient(this, address);
      AppendNoDup(clientList, c);
      clientList := clientList + [c];
    }
  }

  class StandardClient {
    const master: StandardServer
    const address: Address
    var buf: Bytes
    var running: bool
    var recvInit: bool
    var recvKey: bool
    ghost var sent: Bytes
    ghost var delivered: seq<Bytes>
    ghost var closed: bool

    /** The connection's state as the value `Protocol` reasons about. */
    ghost function Snapshot(): Conn
      reads this
    {
      Conn(Session(buf, recvInit, recvKey), running, sent, delivered)
    }

    /** A running client is in its server's list, so `stop` can remove it. */
    ghost predicate Registered()
      reads this, master
    {
      running ==> this in master.clientList
    }

    constructor (master: StandardServer, address: Address)
      ensures this.master == master && this.address == address
      ensures Snapshot() == Fresh() && !closed
    {
      this.master := master;
      this.address := address;
      buf := [];
      running := true;
      recvInit := false;
      recvKey := false;
      sent := [];
      delivered := [];
      closed := false;
    }

    /** `send`: the bytes go out whole, after everything sent before. */
    method Send(data: Bytes)
      modifies this`sent
      ensures sent == old(sent) + data
    {
      sent := sent + data;
    }

    /**
     * `stop`: the first call clears the running flag, closes the socket and
     * removes this client from its server's list; later calls do nothing.
     */
    method Stop()
      requires master.Valid() && Registered()
      modifies this, master
      ensures master.Valid() && !running
      ensures Snapshot() == old(Snapshot()).(running := false)
      ensures old(running) ==> closed && master.clientList == RemoveFirst(old(master.clientList), this)
      ensures !old(running) ==> unchanged(this, master)
    {
      if !running {
        return;
      }
      running := false;
      closed := true;
      var list := master.clientList;
      RemoveFirstNoDup(list, this);
      master.clientList := RemoveFirst(list, this);
    }

    /**
     * `handle_packet`: one step of the handshake or one frame, as `Handle`
     * says; `raised` reports the exception of a header shorter than four bytes.
     */
    method HandlePacket() returns (raised: bool)
      requires master.Valid() && Registered() && running
      modifies this, master
      ensures master.Valid() && Registered()
      ensures Snapshot() == Handle(old(Snapshot()))
      ensures raised <==> Step(old(Snapshot()).session).Fault?
      ensures running ==> master.clientList == old(master.clientList) && closed == old(closed)
      ensures !running ==> closed && master.clientList == RemoveFirst(old(master.clientList), this)
    {
      raised := false;
      if !recvInit {
        if PACKET_INIT <= buf {
          recvInit := true;
          buf := buf[|PACKET_INIT|..];
          Send(KEY_REPLY);
        } else {
          Stop();
        }
      } else if !recvKey {
        if PACKET_KEY <= buf {
          recvKey := true;
          buf := buf[|PACKET_KEY|..];
        } else {
          Stop();
        }
      } else {
        var header := UnpackInt(Head(buf));
        if header.None? {
          raised := true;
          return;
        }
        var packetLength := header.value + 8;
        var packet;
        if packetLength <= |buf| {
          packet := buf[..packetLength];
          buf := buf[packetLength..];
        } else {
          Stop();
          return;
        }
        // handle_data(decode(packet)): the frame is handed to the application.
        delivered := delivered + [packet];
      }
    }

    /**
     * `run`: read chunk after chunk while running; an empty read stops the
     * client, any other chunk is appended to the buffer and handled once.
     * `chunks` are the reads the socket yields, in order.
     */
    method Run(chunks: seq<Bytes>)
      requires master.Valid() && Registered() && running
      modifies this, master
      ensures master.Valid() && Registered()
      ensures Snapshot() == Feed(old(Snapshot()), chunks)
      ensures running ==> master.clientList == old(master.clientList) && closed == old(closed)
      ensures !running ==> closed && master.clientList == RemoveFirst(old(master.clientList), this)
    {
      var i := 0;
      while running && i < |chunks|
        invariant 0 <= i <= |chunks|
        invariant master.Valid() && Registered()
        invariant Feed(Snapshot(), chunks[i..]) == Feed(old(Snapshot()), chunks)
        invariant running ==> master.clientList == old(master.clientList) && closed == old(closed)
        invariant !running ==> closed && master.clientList == RemoveFirst(old(master.clientList), this)
      {
        var packet := chunks[i];
        assert chunks[i..][1..] == chunks[i + 1..];
        i := i + 1;
        if packet == [] {
          Stop();
        } else {
          buf := buf + packet;
          var _ := HandlePacket();
        }
      }
    }
  }

  /**
   * A connection accepted and then stopped, twice over: `handle_client`
   * appends exactly the new client, the first `stop` removes exactly it, and
   * the second `stop` changes nothing.
   */
  method AcceptThenStop(server: StandardServer, address: Address) returns (c: StandardClient)
    requires server.Valid()
    modifies server
    ensures server.Valid() && server.clientList == old(server.clientList)
    ensures fresh(c) && c.closed && !c.running && c.Snapshot() == Fresh().(running := false)
  {
    c := server.HandleClient(address);
    AppendThenRemove(old(server.clientList), c);
    c.Stop();
    ghost var once := c.Snapshot();
    c.Stop();
    assert c.Snapshot() == once && c.closed;
  }
}
