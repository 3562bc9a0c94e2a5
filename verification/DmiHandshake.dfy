/** The ready/valid handshake that carries the host's requests, one at a time, to a
    target driven by a clock. */
module DmiHandshake {
  import opened Words

  datatype Req = Req(addr: u32, op: u32, data: u32)

  datatype Resp = Resp(resp: u32, data: u32)

  /** The host's thread between two switches: what it asks next, given the data that its
      do_command calls have returned so far. */
  type Host = seq<u32> -> Req

  /** One clock cycle, as the target drives it. */
  datatype Cycle = Cycle(reqReady: bool, respValid: bool, respBits: Resp)

  /** The wires, and the data returned to the host so far. */
  datatype State = State(reqBuf: Req, reqWait: bool, respWait: bool, returned: seq<u32>)

  function Start(host: Host): State {
    State(host([]), false, false, [])
  }

  /** The request is taken in this cycle: valid and ready together. */
  predicate Accepts(s: State, c: Cycle) { s.reqWait && c.reqReady }

  /** No response to a request that has not been accepted, and none that reports failure. */
  predicate Legal(s: State, c: Cycle) {
    c.respValid ==> (s.respWait || Accepts(s, c)) && c.respBits.resp == 0
  }

  function Requested(s: State, c: Cycle): State {
    if s.respWait then s
    else if !s.reqWait then s.(reqWait := true)
    else if c.reqReady then s.(reqWait := false, respWait := true)
    else s
  }

  function Next(host: Host, s: State, c: Cycle): State {
    var t := Requested(s, c);
    if c.respValid then
      var returned := t.returned + [c.respBits.data];
      t.(respWait := false, returned := returned, reqBuf := host(returned))
    else t
  }

  // ------------------------------------------------------------------ whole runs

  function After(host: Host, s: State, cs: seq<Cycle>): State
    decreases |cs|
  {
    if cs == [] then s else After(host, Next(host, s, cs[0]), cs[1..])
  }

  predicate AllLegal(host: Host, s: State, cs: seq<Cycle>)
    decreases |cs|
  {
    cs == [] || (Legal(s, cs[0]) && AllLegal(host, Next(host, s, cs[0]), cs[1..]))
  }

  /** What the target has accepted in the course of the cycles. */
  function Accepted(host: Host, s: State, cs: seq<Cycle>): seq<Req>
    decreases |cs|
  {
    if cs == [] then []
    else (if Accepts(s, cs[0]) then [s.reqBuf] else []) + Accepted(host, Next(host, s, cs[0]), cs[1..])
  }

  /** What the target has answered. */
  function Answers(cs: seq<Cycle>): seq<u32> {
    if cs == [] then []
    else (if cs[0].respValid then [cs[0].respBits.data] else []) + Answers(cs[1..])
  }

  /** The first n requests of a host that has been returned these data. */
  function Issued(host: Host, data: seq<u32>, n: nat): (r: seq<Req>)
    requires n <= |data| + 1
    ensures |r| == n
  {
    seq(n, k requires 0 <= k < n => host(data[..k]))
  }

  /** Never both waiting; the request on the wires is the host's latest. */
  predicate Inv(host: Host, s: State) {
    !(s.reqWait && s.respWait) && s.reqBuf == host(s.returned)
  }

  lemma TickInv(host: Host, s: State, c: Cycle)
    requires Inv(host, s) && Legal(s, c)
    ensures Inv(host, Next(host, s, c))
  {
  }

  /** A request on offer stays the same, and on offer, until it is accepted. */
  lemma RequestStable(host: Host, s: State, c: Cycle)
    requires Inv(host, s) && Legal(s, c) && s.reqWait && !Accepts(s, c)
    ensures Next(host, s, c).reqWait && Next(host, s, c).reqBuf == s.reqBuf
  {
  }

  /** From any point of a run on: what is accepted is what the host issues, in order and
      once each; what the host is returned is what the target answers. */
  lemma {:induction false} RunFrom(host: Host, s: State, cs: seq<Cycle>)
    requires Inv(host, s) && AllLegal(host, s, cs)
    ensures var t := After(host, s, cs);
      && Inv(host, t) && t.returned == s.returned + Answers(cs)
      && var first, last := Taken(s), Taken(t);
      && first <= last <= |t.returned| + 1
      && Accepted(host, s, cs) == Issued(host, t.returned, last)[first..]
    decreases |cs|
  {
    hide Issued, Legal, Inv;
    if cs != [] {
      TickInv(host, s, cs[0]);
      RunFrom(host, Next(host, s, cs[0]), cs[1..]);
      OneCycle(host, s, cs[0], After(host, s, cs).returned, Answers(cs[1..]), Taken(After(host, s, cs)));
    }
  }

  /** What one cycle adds to the run that follows it. */
  lemma OneCycle(host: Host, s: State, c: Cycle, data: seq<u32>, answers: seq<u32>, last: nat)
    requires Inv(host, s) && Legal(s, c)
    requires data == Next(host, s, c).returned + answers && Taken(Next(host, s, c)) <= last <= |data| + 1
    ensures data == s.returned + ((if c.respValid then [c.respBits.data] else []) + answers)
    ensures Taken(s) <= last
    ensures (if Accepts(s, c) then [s.reqBuf] else []) + Issued(host, data, last)[Taken(Next(host, s, c))..]
      == Issued(host, data, last)[Taken(s)..]
  {
    if Accepts(s, c) {
      assert data[..|s.returned|] == s.returned;
      NextIssued(host, data, Taken(s), last);
    }
    hide Issued;
  }

  lemma NextIssued(host: Host, data: seq<u32>, k: nat, n: nat)
    requires k < n <= |data| + 1
    ensures Issued(host, data, n)[k..] == [host(data[..k])] + Issued(host, data, n)[k + 1..]
  {
  }

  /** How many requests have been accepted: as many as were answered, and one more while
      a response is awaited. */
  function Taken(s: State): nat {
    |s.returned| + if s.respWait then 1 else 0
  }

  /** The whole run: accepted requests are the do_command calls, in order, once each, at
      most the last one unanswered, and the k-th answer returns from the k-th call. */
  lemma HandshakeDelivers(host: Host, cs: seq<Cycle>)
    requires AllLegal(host, Start(host), cs)
    ensures var t := After(host, Start(host), cs);
      && t.returned == Answers(cs) && !(t.reqWait && t.respWait)
      && Accepted(host, Start(host), cs) == Issued(host, Answers(cs), Taken(t))
  {
    RunFrom(host, Start(host), cs);
    assert [] + Answers(cs) == Answers(cs);
  }

  /** Progress: when no response is awaited, two ready cycles are enough. */
  lemma AcceptedInTwo(host: Host, s: State, c: Cycle, d: Cycle)
    requires Inv(host, s) && !s.respWait && c.reqReady && d.reqReady && Legal(s, c) && Legal(Next(host, s, c), d)
    ensures Accepted(host, s, [c, d]) != [] && Accepted(host, s, [c, d])[0] == s.reqBuf
  {
    assert [c, d][1..] == [d];
  }

  // ------------------------------------------------------------------- the object

  class Transport {
    const host: Host
    var reqBuf: Req
    var respBuf: Resp
    var reqWait: bool
    var respWait: bool
    var returned: seq<u32>    // what do_command has returned to the host

    ghost function Now(): State
      reads this
    {
      State(reqBuf, reqWait, respWait, returned)
    }

    /** start_host_thread: the host runs up to its first do_command. */
    constructor (host: Host)
      ensures this.host == host && Now() == Start(host)
    {
      this.host := host;
      reqWait, respWait := false, false;
      returned := [];
      respBuf := Resp(0, 0);
      reqBuf := host([]);
    }

    method Tick(reqReady: bool, respValid: bool, respBits: Resp)
      requires Inv(host, Now()) && Legal(Now(), Cycle(reqReady, respValid, respBits))
      modifies this
      ensures Now() == Next(host, old(Now()), Cycle(reqReady, respValid, respBits))
      ensures Inv(host, Now())
    {
      if !respWait {
        if !reqWait {
          reqWait := true;
        } else if reqReady {
          reqWait := false;
          respWait := true;
        }
      }
      if respValid {
        assert respWait;
        respWait := false;
        respBuf := respBits;
        SwitchToHost();
      }
    }

    /** The host takes the response out of do_command and runs up to its next one. */
    method SwitchToHost()
      requires respBuf.resp == 0
      modifies this`returned, this`reqBuf
      ensures returned == old(returned) + [respBuf.data] && reqBuf == host(returned)
    {
      assert respBuf.resp == 0;
      returned := returned + [respBuf.data];
      reqBuf := host(returned);
    }
  }
}
