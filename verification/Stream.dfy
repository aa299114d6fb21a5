/**
 * A byte stream that hands its bytes over in chunks of its own choosing, and reading an
 * exact count from it: `_recv_exactly` in `src/trackers/bep34.py` and `_read_exactly` in
 * `experiments/25-webtorrent-handshake.py`.
 */
module Stream {
  import opened Bytes
  import opened Text

  class Socket {
    /** Every byte the peer will still send before it closes. */
    var pending: seq<byte>

    constructor (bytes: seq<byte>)
      ensures pending == bytes
    {
      pending := bytes;
    }

    /** `recv`: some of what is pending, as much as the network likes; nothing once closed. */
    method Recv(max: nat) returns (chunk: seq<byte>)
      requires max > 0
      modifies this
      ensures chunk + pending == old(pending) && |chunk| <= max
      ensures chunk == [] <==> old(pending) == []
    {
      if pending == [] {
        return [];
      }
      var n: nat :| 1 <= n <= max && n <= |pending|;
      chunk := pending[..n];
      pending := pending[n..];
    }

    /** Exactly `count` bytes, however they arrive; a short stream is a failure. */
    method ReadExactly(count: nat) returns (r: Option<seq<byte>>)
      modifies this
      ensures count <= |old(pending)| ==>
                r == Some(old(pending)[..count]) && pending == old(pending)[count..]
      ensures count > |old(pending)| ==> r == None && pending == []
    {
      var out: seq<byte> := [];
      while |out| < count
        invariant |out| <= count && out + pending == old(pending)
        decreases count - |out|
      {
        var chunk := Recv(count - |out|);
        if chunk == [] {
          return None;
        }
        out := out + chunk;
      }
      assert out == old(pending)[..|out|];
      return Some(out);
    }
  }
}
