// The byte supply below every receiver: one fixed wire, cut into reads in an arbitrary way.

module Sockets {
  import opened Bytes

  /** A connection as its reader sees it. `unread` is every byte that will still arrive; a read
      after the last one fails, whether the peer has closed, the transport broke or time ran out. */
  class Socket {
    var unread: seq<byte>

    constructor (wire: seq<byte>)
      ensures unread == wire
    {
      unread := wire;
    }

    /** One Read(dst[at:]): any positive number of bytes may come. */
    method Read(dst: array<byte>, at: nat) returns (n: nat, ok: bool)
      requires at < dst.Length
      modifies this, dst
      ensures ok == (old(unread) != [])
      ensures if ok then 1 <= n <= dst.Length - at && n <= |old(unread)| else n == 0
      ensures unread == old(unread)[n..]
      ensures dst[..] == Pasted(old(dst[..]), at, old(unread)[..n])
    {
      if unread == [] {
        return 0, false;
      }
      var most := if |unread| < dst.Length - at then |unread| else dst.Length - at;
      n :| 1 <= n <= most;
      CopyInto(dst, at, unread[..n]);
      unread := unread[n..];
      ok := true;
    }

    /** io.ReadAtLeast(conn, dst[at:], min): fails exactly when the wire ends before min bytes. */
    method ReadAtLeast(dst: array<byte>, at: nat, min: nat) returns (n: nat, ok: bool)
      requires at + min <= dst.Length
      modifies this, dst
      ensures ok == (|old(unread)| >= min)
      ensures n <= dst.Length - at && n <= |old(unread)|
      ensures ok ==> n >= min
      ensures unread == old(unread)[n..]
      ensures dst[..] == Pasted(old(dst[..]), at, old(unread)[..n])
    {
      hide Pasted;
      n, ok := 0, true;
      ghost var wire, was := unread, dst[..];
      PastedNone(was, at, wire);
      while n < min && ok
        invariant n <= dst.Length - at && n <= |wire|
        invariant unread == wire[n..]
        invariant dst[..] == Pasted(was, at, wire[..n])
        invariant !ok ==> unread == [] && n < min
        decreases min - n, ok
      {
        var m, more := Read(dst, at + n);
        PastedOn(was, at, wire, n, m);
        n, ok := n + m, more;
      }
    }

    /** io.ReadFull into a buffer of that size: fails exactly when the wire ends before it is full. */
    method ReadFull(size: nat) returns (data: seq<byte>, ok: bool)
      modifies this
      ensures ok == (|old(unread)| >= size)
      ensures ok ==> data == old(unread)[..size] && unread == old(unread)[size..]
    {
      data, ok := [], true;
      ghost var wire := unread;
      while |data| < size
        invariant |data| <= size && data + unread == wire
        decreases size - |data|
      {
        if unread == [] {
          return data, false;
        }
        var most := if |unread| < size - |data| then |unread| else size - |data|;
        var n :| 1 <= n <= most;
        data, unread := data + unread[..n], unread[n..];
      }
      assert wire[..size] == data && wire[size..] == unread;
    }
  }

  lemma PastedNone(s: seq<byte>, at: nat, wire: seq<byte>)
    requires at <= |s|
    ensures Pasted(s, at, wire[..0]) == s
  {
    assert wire[..0] == [];
  }

  /** Two reads in a row are like one. */
  lemma PastedOn(s: seq<byte>, at: nat, wire: seq<byte>, n: nat, m: nat)
    requires n + m <= |wire| && at + n + m <= |s|
    ensures Pasted(Pasted(s, at, wire[..n]), at + n, wire[n..][..m]) == Pasted(s, at, wire[..n + m])
  {
    assert wire[..n + m] == wire[..n] + wire[n..][..m];
  }
}
