/** The connection of a session: what the kernel does is chosen freely within its contract. */
module WsSocket {
  import opened Bytes

  /** What one recv call finds; `listening` is the server's flag as seen at a poll timeout. */
  datatype Arrival = Chunk(data: seq<byte>) | PeerClosed | Interrupted | TimedOut(listening: bool) | Failed

  /** What one recv call returns; Blocked means that nothing has happened yet. */
  datatype Received = Data(data: seq<byte>) | Eof | Again | Timeout(listening: bool) | Error | Blocked

  /** All bytes that are still on their way. */
  function Stream(script: seq<Arrival>): seq<byte> {
    if script == [] then []
    else (if script[0].Chunk? then script[0].data else []) + Stream(script[1..])
  }

  /** A bound on the number of recv calls that can still return. */
  function Work(script: seq<Arrival>): nat {
    if script == [] then 0
    else 1 + (if script[0].Chunk? then |script[0].data| else 0) + Work(script[1..])
  }

  // ---- signals: what arrives besides bytes ----

  function Signals(script: seq<Arrival>): seq<Arrival> {
    if script == [] then []
    else (if script[0].Chunk? then [] else [script[0]]) + Signals(script[1..])
  }

  predicate Suffix(t: seq<Arrival>, s: seq<Arrival>) {
    |t| <= |s| && s[|s| - |t|..] == t
  }

  /** Between s and the rest t, the last signal given was a. */
  predicate LastSignal(s: seq<Arrival>, t: seq<Arrival>, a: Arrival) {
    Suffix([a] + t, s)
  }

  lemma SuffixThen(u: seq<Arrival>, t: seq<Arrival>, s: seq<Arrival>)
    requires Suffix(u, t) && Suffix(t, s)
    ensures Suffix(u, s)
  {
    assert s[|s| - |u|..] == s[|s| - |t|..][|t| - |u|..];
  }

  lemma LastThen(u: seq<Arrival>, t: seq<Arrival>, s: seq<Arrival>, a: Arrival)
    requires LastSignal(t, u, a) && Suffix(t, s)
    ensures LastSignal(s, u, a)
  {
    SuffixThen([a] + u, t, s);
  }

  class Socket {
    ghost var calls: nat       // how many recv calls there have been
    ghost var failures: nat    // how many send calls have failed
    var wire: seq<byte>        // everything the peer has been sent
    var script: seq<Arrival>   // what will arrive: any finite run

    constructor (arrivals: seq<Arrival>)
      ensures wire == [] && script == arrivals
    {
      wire := [];
      script := arrivals;
      calls := 0;
      failures := 0;
    }

    /** One send call: accepts some of the bytes, or fails. */
    method Send(data: seq<byte>) returns (n: int)
      requires data != []
      modifies this`wire, this`failures
      ensures n == -1 || 1 <= n <= |data|
      ensures failures == old(failures) + if n == -1 then 1 else 0
      ensures wire == old(wire) + data[..if n == -1 then 0 else n]
    {
      var accepted: nat :| accepted <= |data|;
      if accepted == 0 {
        n := -1;
        failures := failures + 1;
      } else {
        wire := wire + data[..accepted];
        n := accepted;
      }
    }

    /** Sends all of the data, in as many calls as it takes, or fails part-way. */
    method SendRaw(data: seq<byte>) returns (ok: bool)
      modifies this`wire, this`failures
      ensures failures == old(failures) + if ok then 0 else 1
      ensures ok ==> wire == old(wire) + data
      ensures !ok ==> exists k: nat :: k < |data| && wire == old(wire) + data[..k]
    {
      var count := 0;
      while count < |data|
        invariant 0 <= count <= |data|
        invariant wire == old(wire) + data[..count] && failures == old(failures)
      {
        var n := Send(data[count..]);
        if n == -1 {
          return false;
        }
        assert data[..count] + data[count..][..n] == data[..count + n];
        count := count + n;
      }
      assert data[..count] == data;
      ok := true;
    }

    /** One recv call with room for max bytes. */
    method Receive(max: nat) returns (r: Received)
      requires max > 0
      modifies this`script, this`calls
      ensures calls == old(calls) + 1
      ensures r.Data? ==> 0 < |r.data| <= max
      ensures (if r.Data? then r.data else []) + Stream(script) == old(Stream(script))
      ensures !r.Blocked? ==> Work(script) < old(Work(script))
      ensures r.Blocked? ==> script == []
      ensures Suffix(Signals(script), old(Signals(script)))
      ensures r.Eof? ==> LastSignal(old(Signals(script)), Signals(script), PeerClosed)
      ensures r.Timeout? ==> LastSignal(old(Signals(script)), Signals(script), TimedOut(r.listening))
      ensures r.Error? ==> LastSignal(old(Signals(script)), Signals(script), Failed)
    {
      calls := calls + 1;
      if script == [] {
        return Blocked;
      }
      var a := script[0];
      var tail := script[1..];
      match a
      case Chunk(data) =>
        if data == [] {
          script := tail;
          r := Again;
        } else if |data| <= max {
          script := tail;
          r := Data(data);
        } else {
          script := [Chunk(data[max..])] + tail;
          assert script[1..] == tail;
          assert data[..max] + (data[max..] + Stream(tail)) == data + Stream(tail);
          r := Data(data[..max]);
        }
      case PeerClosed =>
        script := tail;
        r := Eof;
      case Interrupted =>
        script := tail;
        r := Again;
      case TimedOut(listening) =>
        script := tail;
        r := Timeout(listening);
      case Failed =>
        script := tail;
        r := Error;
    }
  }
}
