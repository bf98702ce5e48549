/** The server's handler of one multiplexed session: its accept loop and its reverse listeners. */
module MuxServer {
  import opened Bytes
  import opened MuxHeader

  /** What becomes of an accepted stream: closed, given to handleMuxConnect, or kept open for
      the listener it registered. */
  datatype Fate = Closed | HandedOff | Held

  function Dispatch(reverse: bool, bytes: seq<byte>, listenOk: bool): Fate {
    match DecodeHeader(bytes).result
    case Ok(h) =>
      if h.cmd == CMD_CONNECT then HandedOff
      else if h.cmd == CMD_REVERSE_BIND && reverse && listenOk then Held
      else Closed
    case _ => Closed
  }

  /** What the server does with the streams a client writes, whatever follows the header: it
      connects, listens if it may and can, and closes anything else. */
  lemma WrittenStreamsAreDispatched(reverse: bool, cmd: byte, addr: Text, tail: seq<byte>, listenOk: bool)
    requires |addr| <= MAX_ADDRESS
    ensures Dispatch(reverse, EncodeHeader(cmd, addr) + tail, listenOk) ==
            if cmd == CMD_CONNECT then HandedOff
            else if cmd == CMD_REVERSE_BIND && reverse && listenOk then Held
            else Closed
  {
    HeaderRoundTripExact(cmd, addr, tail);
  }

  /** Any stream that is not closed began with a whole header: a connect command, or a bind command
      that may and can be served. So every cut, overlong or unknown header closes its stream. */
  lemma OnlyWholeHeadersAreServed(reverse: bool, bytes: seq<byte>, listenOk: bool)
    returns (cmd: byte, addr: Text, tail: seq<byte>)
    requires Dispatch(reverse, bytes, listenOk) != Closed
    ensures |addr| <= MAX_ADDRESS && bytes == EncodeHeader(cmd, addr) + tail
    ensures if cmd == CMD_CONNECT then Dispatch(reverse, bytes, listenOk) == HandedOff
            else cmd == CMD_REVERSE_BIND && reverse && listenOk && Dispatch(reverse, bytes, listenOk) == Held
  {
    var d := DecodeHeader(bytes);
    DecodedReencodes(bytes);
    cmd, addr, tail := d.result.header.cmd, d.result.header.addr, bytes[d.used..];
  }

  /** One turn of the accept loop: how the stream's bytes arrive, whether net.Listen would
      succeed, and what other goroutines did meanwhile: the listeners whose own accept loops have
      closed them, and the earlier streams whose handleMuxConnect has returned. */
  datatype Incoming = Incoming(chunks: seq<seq<byte>>, listenOk: bool, died: set<nat>, ended: set<nat>)

  function FateOf(reverse: bool, i: Incoming): Fate { Dispatch(reverse, Flatten(i.chunks), i.listenOk) }

  /** The addresses of the streams that were held, in order. */
  function HeldBinds(reverse: bool, script: seq<Incoming>): seq<Text> {
    if script == [] then []
    else
      var i := script[|script| - 1];
      HeldBinds(reverse, script[..|script| - 1]) +
      if FateOf(reverse, i).Held? then [DecodeHeader(Flatten(i.chunks)).result.header.addr] else []
  }

  lemma {:induction false} NothingHeldWithoutReverse(script: seq<Incoming>)
    ensures HeldBinds(false, script) == []
  {
    if script != [] {
      NothingHeldWithoutReverse(script[..|script| - 1]);
    }
  }

  lemma HeldOneMore(reverse: bool, script: seq<Incoming>, i: Incoming)
    ensures HeldBinds(reverse, script + [i]) ==
            if FateOf(reverse, i).Held?
            then HeldBinds(reverse, script) + [DecodeHeader(Flatten(i.chunks)).result.header.addr]
            else HeldBinds(reverse, script)
  {
    assert (script + [i])[..|script|] == script;
  }

  class Listener {
    const bind: Text
    var open: bool

    constructor (bind: Text)
      ensures this.bind == bind && open
    {
      this.bind, open := bind, true;
    }

    method Close()
      modifies this
      ensures !open
    {
      open := false;
    }
  }

  ghost function Binds(ls: seq<Listener>): seq<Text> {
    seq(|ls|, i requires 0 <= i < |ls| => ls[i].bind)
  }

  lemma BindsOneMore(ls: seq<Listener>, l: Listener)
    ensures Binds(ls + [l]) == Binds(ls) + [l.bind]
  {
  }

  /** An accepted stream; open until this side closes it. */
  class Stream {
    ghost const bytes: seq<byte>
    const source: Source
    var open: bool

    constructor (chunks: seq<seq<byte>>)
      ensures bytes == Flatten(chunks) && fresh(source) && source.chunks == chunks && open
    {
      bytes := Flatten(chunks);
      source := new Source(chunks);
      open := true;
    }

    method Close()
      modifies this
      ensures !open
    {
      open := false;
    }
  }

  /** The stream's header registers a listener on this address. */
  ghost predicate AsksFor(s: Stream, bind: Text) { DecodeHeader(s.bytes).result == Ok(Header(CMD_REVERSE_BIND, bind)) }

  /** The listeners that were created are those in the list, all different, and they and the held
      streams correspond one to one, in order, by the address that the stream asks for. */
  ghost predicate Matched(ls: seq<Listener>, created: set<Listener>, held: seq<Stream>, binds: seq<Text>) {
    && Binds(ls) == binds
    && (forall l | l in created :: l in ls)
    && (forall l | l in ls :: l in created)
    && (forall i, j | 0 <= i < j < |ls| :: ls[i] != ls[j])
    && |held| == |ls|
    && (forall k | 0 <= k < |held| :: AsksFor(held[k], ls[k].bind))
  }

  lemma MatchedGrows(
      ls: seq<Listener>, created: set<Listener>, held: seq<Stream>, binds: seq<Text>, l: Listener, s: Stream)
    requires Matched(ls, created, held, binds) && l !in created && AsksFor(s, l.bind)
    ensures Matched(ls + [l], created + {l}, held + [s], binds + [l.bind])
  {
    hide AsksFor, Binds;
    BindsOneMore(ls, l);
  }

  class MuxSession {
    const reverse: bool
    var reverseListeners: seq<Listener>
    /** The streams of the handleMuxConnect calls that have not returned. */
    var handed: set<Stream>
    var sessionOpen: bool
    /** The session's streams, in the order in which they were accepted. */
    var streams: seq<Stream>
    /** Every listener opened so far, and the streams that are kept open for them; the program
        has no list of these. */
    ghost var created: set<Listener>
    ghost var held: seq<Stream>
    ghost var Repr: set<object>

    constructor (reverse: bool)
      ensures this.reverse == reverse && sessionOpen && AtLoopHead([])
    {
      this.reverse := reverse;
      reverseListeners, handed, streams, sessionOpen := [], {}, [], true;
      created, held, Repr := {}, [], {};
    }

    ghost predicate Owned()
      reads this
    {
      this !in Repr && created <= Repr && forall s | s in streams :: s in Repr
    }

    /** Streams and listeners are as the fates of the script's streams demand. */
    ghost predicate AtLoopHead(script: seq<Incoming>)
      reads this, streams
    {
      Owned() && StreamsKept(script) && ListenersKept(script)
    }

    /** Every stream is in exactly one of three places: closed, with its handler, or held. */
    ghost predicate StreamsKept(script: seq<Incoming>)
      reads this, streams
    {
      && |streams| == |script|
      && (forall i, j | 0 <= i < j < |streams| :: streams[i] != streams[j])
      && (forall i | 0 <= i < |streams| ::
            streams[i].bytes == Flatten(script[i].chunks) && InPlace(streams[i], FateOf(reverse, script[i])))
      && (forall s | s in handed :: s in streams)
      && (forall s | s in held :: s in streams)
      && (forall i, j | 0 <= i < j < |held| :: held[i] != held[j])
    }

    ghost predicate InPlace(s: Stream, fate: Fate)
      reads this, s
    {
      match fate
      case Closed => !s.open && s !in handed && s !in held
      case HandedOff => s.open == (s in handed) && s !in held
      case Held => s.open && s !in handed && s in held
    }

    ghost predicate ListenersKept(script: seq<Incoming>)
      reads this
    {
      Matched(reverseListeners, created, held, HeldBinds(reverse, script))
    }

    /** The whole handler; on return every listener and every stream is closed. */
    method Serve(script: seq<Incoming>)
      requires AtLoopHead([]) && sessionOpen
      modifies this
      ensures Owned() && fresh(Repr)
      ensures |streams| == |script| && forall s | s in streams :: !s.open
      ensures Binds(reverseListeners) == HeldBinds(reverse, script)
      ensures created == set l | l in reverseListeners
      ensures forall l | l in created :: !l.open
      ensures !reverse ==> created == {}
      ensures !sessionOpen
    {
      AcceptLoop(script);
      FromLoopHead(script);
      if !reverse {
        NothingHeldWithoutReverse(script);
        assert |Binds(reverseListeners)| == 0;
      }
      hide *;
      CloseListeners();
      CloseSession();
    }

    method CloseListeners()
      requires forall l | l in reverseListeners :: l in created
      modifies created
      ensures forall l | l in reverseListeners :: !l.open
    {
      var k := 0;
      while k < |reverseListeners|
        invariant 0 <= k <= |reverseListeners|
        invariant forall j | 0 <= j < k :: !reverseListeners[j].open
        modifies created
      {
        reverseListeners[k].Close();
        k := k + 1;
      }
    }

    lemma FromLoopHead(script: seq<Incoming>)
      requires AtLoopHead(script)
      ensures |streams| == |script| && Owned() && forall s | s in handed :: s in streams
      ensures StreamsKept(script) && ListenersKept(script)
      ensures created <= Repr && forall s | s in handed :: s in Repr
      ensures Binds(reverseListeners) == HeldBinds(reverse, script)
      ensures created == set l | l in reverseListeners
    {
    }

    lemma AssembleLoopHead(script: seq<Incoming>)
      requires Owned() && StreamsKept(script) && ListenersKept(script)
      ensures AtLoopHead(script)
    {
    }

    /** The accept loop, until session.Accept fails. */
    method AcceptLoop(script: seq<Incoming>)
      requires AtLoopHead([]) && sessionOpen
      modifies this
      ensures AtLoopHead(script) && sessionOpen && fresh(Repr)
    {
      FromLoopHead([]);
      Repr := {};
      assert AtLoopHead([]);
      hide *;
      var i := 0;
      while i < |script|
        invariant 0 <= i <= |script| && AtLoopHead(script[..i]) && sessionOpen
        invariant fresh(Repr)
      {
        Turn(script[i], script[..i]);
        assert script[..i + 1] == script[..i] + [script[i]];
        i := i + 1;
      }
      assert script[..i] == script;
    }

    /** What the other goroutines do, and then one turn of the loop. */
    method Turn(s: Incoming, ghost before: seq<Incoming>)
      requires AtLoopHead(before)
      modifies this, Repr
      ensures AtLoopHead(before + [s]) && sessionOpen == old(sessionOpen)
      ensures fresh(Repr - old(Repr))
    {
      FromLoopHead(before);
      hide *;
      ListenersDie(s.died, before);
      HandlersEnd(s.ended, before);
      var stream := Accept(s, before);
    }

    /** session.Close closes every stream of the session. */
    method CloseSession()
      requires Owned()
      modifies this`sessionOpen, Repr
      ensures !sessionOpen && forall s | s in streams :: !s.open
      ensures forall l | l in created :: l.open == old(l.open)
    {
      forall s | s in streams { s.open := false; }
      sessionOpen := false;
    }

    /** A listener's own goroutine closes it when its Accept fails. */
    method ListenersDie(died: set<nat>, ghost script: seq<Incoming>)
      requires AtLoopHead(script)
      modifies created
      ensures AtLoopHead(script)
    {
      forall k | k in died && k < |reverseListeners| { reverseListeners[k].open := false; }
    }

    /** handleMuxConnect closes its stream when it returns. */
    method HandlersEnd(ended: set<nat>, ghost script: seq<Incoming>)
      requires AtLoopHead(script)
      modifies this`handed, handed
      ensures AtLoopHead(script) && handed == set s | s in old(handed) && !Ends(ended, s)
    {
      var gone := set s | s in handed && Ends(ended, s);
      forall s | s in gone { s.open := false; }
      handed := handed - gone;
      FewerHandlers(script);
    }

    twostate lemma FewerHandlers(script: seq<Incoming>)
      requires old(AtLoopHead(script)) && handed <= old(handed)
      requires unchanged(this`streams, this`held, this`created, this`reverseListeners, this`Repr)
      requires forall s | s in streams :: if s in old(handed) - handed then !s.open else s.open == old(s.open)
      ensures AtLoopHead(script)
    {
      hide FateOf, Flatten, HeldBinds, DecodeHeader;
    }

    predicate Ends(ended: set<nat>, s: Stream)
      reads this
    {
      exists k | k in ended :: k < |streams| && streams[k] == s
    }

    twostate lemma OneMoreStream(script: seq<Incoming>)
      requires script != [] && old(StreamsKept(script[..|script| - 1]))
      requires var n, s := |script| - 1, script[|script| - 1];
               && |streams| == n + 1 && streams[..n] == old(streams)
               && fresh(streams[n]) && streams[n].bytes == Flatten(s.chunks)
               && (streams[n].open <==> !FateOf(reverse, s).Closed?)
               && handed == old(handed) + (if FateOf(reverse, s).HandedOff? then {streams[n]} else {})
               && held == old(held) + if FateOf(reverse, s).Held? then [streams[n]] else []
      requires forall t | t in old(streams) :: t.open == old(t.open)
      ensures StreamsKept(script)
    {
      hide FateOf, Flatten;
    }

    /** The body of the loop: reads the header and disposes of the stream. */
    method Accept(s: Incoming, ghost before: seq<Incoming>) returns (stream: Stream)
      requires AtLoopHead(before)
      modifies this
      ensures AtLoopHead(before + [s])
      ensures fresh(stream) && streams == old(streams) + [stream]
      ensures stream.open <==> !FateOf(reverse, s).Closed?
      ensures handed == old(handed) + if FateOf(reverse, s).HandedOff? then {stream} else {}
      ensures held == old(held) + if FateOf(reverse, s).Held? then [stream] else []
      ensures FateOf(reverse, s).HandedOff? ==>
                Flatten(stream.source.chunks) == stream.bytes[DecodeHeader(stream.bytes).used..]
      ensures fresh(Repr - old(Repr)) && old(Repr) <= Repr
      ensures sessionOpen == old(sessionOpen)
    {
      FromLoopHead(before);
      hide *;
      stream := Take(s);
      Dispose(s, stream, before);
      assert (before + [s])[..|before|] == before;
      OneMoreStream(before + [s]);
      AssembleLoopHead(before + [s]);
    }

    /** session.Accept. */
    method Take(s: Incoming) returns (stream: Stream)
      modifies this`streams, this`Repr
      ensures fresh(stream) && fresh(stream.source) && stream.open
      ensures stream.bytes == Flatten(s.chunks) == Flatten(stream.source.chunks)
      ensures streams == old(streams) + [stream] && streams[..|old(streams)|] == old(streams)
      ensures Repr == old(Repr) + {stream} && (old(Owned()) ==> Owned())
    {
      stream := new Stream(s.chunks);
      streams, Repr := streams + [stream], Repr + {stream};
    }

    /** What becomes of a stream that has just been accepted. */
    method Dispose(s: Incoming, stream: Stream, ghost before: seq<Incoming>)
      requires ListenersKept(before)
      requires stream.open && stream.bytes == Flatten(s.chunks) == Flatten(stream.source.chunks)
      modifies this`handed, this`held, this`reverseListeners, this`created, this`Repr, stream, stream.source
      ensures fresh(Repr - old(Repr)) && old(Repr) <= Repr && (old(Owned()) ==> Owned())
      ensures stream.open <==> !FateOf(reverse, s).Closed?
      ensures handed == old(handed) + if FateOf(reverse, s).HandedOff? then {stream} else {}
      ensures held == old(held) + if FateOf(reverse, s).Held? then [stream] else []
      ensures Flatten(stream.source.chunks) == stream.bytes[DecodeHeader(stream.bytes).used..]
      ensures ListenersKept(before + [s])
    {
      HeldOneMore(reverse, before, s);
      hide DecodeHeader, Flatten, HeldBinds, Matched;
      var header := ReadHeader(stream.source);
      if !header.Ok? {
        stream.Close();
        return;
      }
      if header.header.cmd == CMD_CONNECT {
        handed := handed + {stream};
      } else if header.header.cmd == CMD_REVERSE_BIND {
        if !reverse {
          stream.Close();
          return;
        }
        if !s.listenOk {
          stream.Close();
          return;
        }
        var ln := new Listener(header.header.addr);
        MatchedGrows(reverseListeners, created, held, HeldBinds(reverse, before), ln, stream);
        reverseListeners := reverseListeners + [ln];
        created, held, Repr := created + {ln}, held + [stream], Repr + {ln};
      } else {
        stream.Close();
      }
    }
  }
}
