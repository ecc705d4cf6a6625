/** The kernel's side of read(2) and write(2), and the two retry loops wrapped around them. */
module Transport {
  import opened Basics

  /** The errno values that the callers tell apart. */
  datatype Errno = NoError | Interrupted | Failed

  /**
   * A connected socket. The kernel answers each call as it likes: with part of what was asked,
   * with EINTR, or, unless the connection is reliable, with a hard error. `patience` bounds how
   * often in a row it may answer without making progress, and `faults` counts the hard errors.
   */
  class Connection {
    const reliable: bool
    var patience: nat
    var incoming: seq<Byte>     // what the peer sends and nobody has read yet; end of file follows
    ghost var faults: nat
    ghost var sent: seq<Byte>   // what has been put on the wire

    constructor (reliable: bool, patience: nat, incoming: seq<Byte>)
      ensures this.reliable == reliable && this.patience == patience
      ensures this.incoming == incoming && sent == [] && faults == 0
    {
      this.reliable := reliable;
      this.patience := patience;
      this.incoming := incoming;
      this.sent, this.faults := [], 0;
    }

    method Write(data: seq<Byte>) returns (ret: int, errno: Errno)
      modifies this`patience, this`sent, this`faults
      ensures ret <= |data| && faults == old(faults) + (if errno.Failed? then 1 else 0) && (errno.Failed? ==> ret < 0)
      ensures sent == if ret > 0 then old(sent) + data[..ret] else old(sent)
      ensures ret <= 0 && !errno.Failed? && data != [] ==> patience < old(patience)
      ensures ret > 0 ==> patience == old(patience)
      ensures reliable ==> !errno.Failed?
    {
      ret, errno := *, *;
      if ret > |data| {
        ret := |data|;
      }
      if errno.Failed? && (reliable || ret > 0) {
        errno := Interrupted;
      }
      if ret <= 0 && !errno.Failed? && data != [] {
        if patience > 0 {
          patience := patience - 1;
        } else if reliable {
          ret := 1;
        } else {
          errno := Failed;
        }
      }
      if errno.Failed? {
        ret, faults := -1, faults + 1;
      }
      if ret > 0 {
        sent := sent + data[..ret];
      }
    }

    method Read(count: nat) returns (ret: int, errno: Errno, data: seq<Byte>)
      modifies this`patience, this`incoming, this`faults
      ensures faults == old(faults) + (if errno.Failed? then 1 else 0) && (errno.Failed? ==> ret < 0)
      ensures ret <= count && ret <= |old(incoming)|
      ensures ret > 0 ==> data == old(incoming)[..ret] && incoming == old(incoming)[ret..]
      ensures ret <= 0 ==> data == [] && incoming == old(incoming)
      ensures ret == 0 && errno.NoError? ==> count == 0 || incoming == []
      ensures ret < 0 ==> !errno.NoError?
      ensures ret <= 0 && errno.Interrupted? ==> patience < old(patience)
      ensures ret > 0 ==> patience == old(patience)
      ensures reliable ==> !errno.Failed?
    {
      ret, errno := *, *;
      if ret > count || ret > |incoming| {
        ret := if count < |incoming| then count else |incoming|;
      }
      if ret <= 0 {
        if errno.Interrupted? && patience > 0 {
          patience := patience - 1;
        } else if errno.Failed? && !reliable {
          ret, faults := -1, faults + 1;
        } else if count == 0 || incoming == [] {
          ret, errno := 0, NoError;
        } else {
          ret, errno := 1, NoError;
        }
      } else {
        errno := NoError;
      }
      data := [];
      if ret > 0 {
        data, incoming := incoming[..ret], incoming[ret..];
      }
    }
  }

  /** Writes all of `data`, going on after short writes and EINTR; gives up at a hard error. */
  method SafeWrite(conn: Connection, data: seq<Byte>) returns (n: int)
    modifies conn`patience, conn`sent, conn`faults
    ensures conn.faults == old(conn.faults) + (if n == |data| then 0 else 1)
    ensures old(conn.sent) <= conn.sent <= old(conn.sent) + data
    ensures n == |data| ==> conn.sent == old(conn.sent) + data
    ensures n != |data| && data != [] ==> conn.sent != old(conn.sent) + data
    ensures conn.reliable ==> n == |data|
  {
    n := 0;
    while true
      invariant 0 <= n <= |data| && (data != [] ==> n < |data|)
      invariant conn.sent == old(conn.sent) + data[..n] && conn.faults == old(conn.faults)
      decreases |data| - n, conn.patience
    {
      ghost var before := n;
      var ret, errno := conn.Write(data[n..]);
      if ret > 0 {
        n := n + ret;
        assert data[..n] == data[..before] + data[before..][..ret];
      } else if errno.Failed? {
        return ret;
      }
      if n == |data| {
        assert data[..n] == data;
        return n;
      }
    }
  }

  /**
   * Reads `count` bytes, going on after short reads and EINTR. `data` is what was taken off the connection: as many
   * bytes as the result says, fewer than `count` only at the end of file; after a hard error, and only then, the result
   * is negative, and fewer than `count` bytes are lost.
   */
  method SafeRead(conn: Connection, count: nat) returns (n: int, data: seq<Byte>)
    modifies conn`patience, conn`incoming, conn`faults
    ensures |data| <= count && data + conn.incoming == old(conn.incoming)
    ensures conn.faults == old(conn.faults) + (if n < 0 then 1 else 0) && (conn.reliable ==> n >= 0)
    ensures n >= 0 ==> n == |data| == if count < |old(conn.incoming)| then count else |old(conn.incoming)|
    ensures n < 0 && count > 0 ==> |data| < count
  {
    n, data := 0, [];
    ghost var all := conn.incoming;
    assert data + conn.incoming == all;
    while true
      invariant |data| == n <= count && (count > 0 ==> n < count)
      invariant data + conn.incoming == all && conn.faults == old(conn.faults)
      decreases count - n, conn.patience
    {
      ghost var before := conn.incoming;
      var ret, errno, more := conn.Read(count - n);
      if ret > 0 {
        assert before == more + conn.incoming;
        Assoc(data, more, conn.incoming);
        n, data := n + ret, data + more;
      } else if ret == 0 && errno.NoError? {
        return;
      } else if errno.Failed? {
        return ret, data;
      }
      if n == count {
        return;
      }
    }
  }
}
