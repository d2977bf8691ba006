/** Who owns a descriptor: ClientConnection, HttpConnection and closeConnection
    (http_connection.h, http_connection.cc), acting on the descriptor table of one process. */
module Descriptors {

  type Fd = int
  type Sock = nat

  const INVALID_SOCKET: Fd := -1
  const EMPTY_DESCRIPTOR: Fd := 0

  // A process as its descriptor table, with a count of closes that hit no open descriptor.
  datatype Proc = Proc(table: map<Fd, Sock>, badCloses: nat)

  function Close(p: Proc, fd: Fd): Proc {
    if fd in p.table then p.(table := p.table - {fd}) else p.(badCloses := p.badCloses + 1)
  }

  // ~ClientConnection
  function Destroyed(p: Proc, sockfd: Fd): Proc {
    if sockfd > 0 then Close(p, sockfd) else p
  }

  // HttpConnection::closeConnection: the process after it, and the descriptor field after it.
  function ConnectionClosed(p: Proc, sockfd: Fd): (Proc, Fd) {
    if sockfd > 0 then (Close(p, sockfd), EMPTY_DESCRIPTOR) else (p, INVALID_SOCKET)
  }

  // ~HttpConnection: its body, and then the destructor of its client_ member.
  function ConnectionDestroyed(p: Proc, sockfd: Fd): Proc {
    var (q, left) := ConnectionClosed(p, sockfd);
    Destroyed(q, left)
  }

  /** Destroying a connection closes its descriptor once: the field it overwrites shields it from its own member. */
  lemma ConnectionClosesOnce(p: Proc, sockfd: Fd)
    ensures ConnectionDestroyed(p, sockfd) == if sockfd > 0 then Close(p, sockfd) else p
    ensures sockfd in p.table && sockfd > 0 ==>
              ConnectionDestroyed(p, sockfd) == Proc(p.table - {sockfd}, p.badCloses) &&
              Destroyed(ConnectionDestroyed(p, sockfd), sockfd).badCloses == p.badCloses + 1
  {
  }

  // ----- the objects -----

  class Process {
    var proc: Proc

    constructor (proc: Proc)
      ensures this.proc == proc
    {
      this.proc := proc;
    }

    // close(2)
    method CloseFd(fd: Fd)
      modifies this
      ensures proc == Close(old(proc), fd)
    {
      proc := if fd in proc.table then proc.(table := proc.table - {fd}) else proc.(badCloses := proc.badCloses + 1);
    }
  }

  class ClientConnection {
    var sockfd: Fd

    constructor (sockfd: Fd)
      ensures this.sockfd == sockfd
    {
      this.sockfd := sockfd;
    }

    // The defaulted move constructor copies the descriptor and leaves the source as it was.
    constructor Move(other: ClientConnection)
      ensures sockfd == other.sockfd
    {
      sockfd := other.sockfd;
    }

    method Destroy(os: Process)
      modifies os
      ensures os.proc == Destroyed(old(os.proc), sockfd)
    {
      if sockfd > 0 {
        os.CloseFd(sockfd);
      }
    }
  }

  class HttpConnection {
    const client: ClientConnection

    constructor (source: ClientConnection)
      ensures fresh(client) && client.sockfd == source.sockfd
    {
      client := new ClientConnection.Move(source);
    }

    method CloseConnection(os: Process)
      modifies os, client
      ensures (os.proc, client.sockfd) == ConnectionClosed(old(os.proc), old(client.sockfd))
      ensures client.sockfd == if old(client.sockfd) > 0 then 0 else -1
    {
      if client.sockfd > 0 {
        os.CloseFd(client.sockfd);
        client.sockfd := EMPTY_DESCRIPTOR;
      } else {
        client.sockfd := INVALID_SOCKET;
      }
    }

    method Destroy(os: Process)
      modifies os, client
      ensures os.proc == ConnectionDestroyed(old(os.proc), old(client.sockfd))
    {
      CloseConnection(os);
      client.Destroy(os);
    }
  }

  /** The block a child runs between fork and _exit: it gives up the listener and its client, each
      exactly once, and keeps everything else; the moved-from object still names the descriptor. */
  method ServeChild(os: Process, client: ClientConnection, listener: Fd)
    requires listener in os.proc.table && client.sockfd in os.proc.table
    requires client.sockfd != listener && client.sockfd > 0
    modifies os
    ensures os.proc == Proc(old(os.proc.table) - {listener, client.sockfd}, old(os.proc.badCloses))
    ensures Destroyed(os.proc, client.sockfd).badCloses == old(os.proc.badCloses) + 1
  {
    os.CloseFd(listener);
    var connection := new HttpConnection(client);
    connection.Destroy(os);
    assert old(os.proc.table) - {listener} - {client.sockfd} == old(os.proc.table) - {listener, client.sockfd};
  }
}
