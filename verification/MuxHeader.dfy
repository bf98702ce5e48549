/** The header that opens every multiplexed stream: one command byte, a two-byte big-endian
    length, and the address. */
module MuxHeader {
  import opened Bytes

  const CMD_CONNECT: byte := 1
  const CMD_REVERSE_BIND: byte := 2
  const CMD_REVERSE_CONN: byte := 3
  const MAX_ADDRESS: nat := 4096

  datatype Header = Header(cmd: byte, addr: Text)
  datatype Result = Ok(header: Header) | Truncated | TooLong(length: nat)
  datatype Decoded = Decoded(result: Result, used: nat)

  // ------------------------------------------------------------------ the code

  /** The bytes of a header; the length is cut to sixteen bits. */
  function EncodeHeader(cmd: byte, addr: Text): seq<byte> {
    [cmd, |addr| / 256 % 256, |addr| % 256] + addr
  }

  /** What a reader makes of the bytes of a stream, and how many of them it consumes. */
  function DecodeHeader(b: seq<byte>): (d: Decoded)
    ensures d.used <= |b|
  {
    if |b| < 3 then Decoded(Truncated, |b|)
    else
      var n := b[1] as nat * 256 + b[2] as nat;
      if n > MAX_ADDRESS then Decoded(TooLong(n), 3)
      else if |b| < 3 + n then Decoded(Truncated, |b|)
      else Decoded(Ok(Header(b[0], b[3..3 + n])), 3 + n)
  }

  /** On the wire: the command, the length with its high byte first, the address. */
  lemma WireLayout(cmd: byte, hi: byte, lo: byte, addr: Text)
    requires |addr| == 256 * hi as nat + lo as nat
    ensures EncodeHeader(cmd, addr) == [cmd, hi, lo] + addr
  {
    assert |addr| / 256 == hi && |addr| % 256 == lo;
  }

  lemma LengthBytes(n: nat)
    requires n < 65536
    ensures n / 256 % 256 * 256 + n % 256 == n
  {
  }

  /** A header followed by anything decodes to itself and leaves exactly the rest, for every
      address of at most 4096 bytes and no other. */
  lemma HeaderRoundTripExact(cmd: byte, addr: Text, rest: seq<byte>)
    ensures DecodeHeader(EncodeHeader(cmd, addr) + rest) == Decoded(Ok(Header(cmd, addr)), |EncodeHeader(cmd, addr)|)
            <==> |addr| <= MAX_ADDRESS
  {
    var b := EncodeHeader(cmd, addr) + rest;
    assert b[0] == cmd && b[1] == |addr| / 256 % 256 && b[2] == |addr| % 256;
    if |addr| <= MAX_ADDRESS {
      LengthBytes(|addr|);
      assert b[3..3 + |addr|] == addr;
    }
  }

  /** Every header that is read re-encodes to precisely the bytes it was read from. */
  lemma DecodedReencodes(b: seq<byte>)
    requires DecodeHeader(b).result.Ok?
    ensures var d := DecodeHeader(b);
            |d.result.header.addr| <= MAX_ADDRESS
            && EncodeHeader(d.result.header.cmd, d.result.header.addr) == b[..d.used]
  {
    var n := b[1] as nat * 256 + b[2] as nat;
    assert n / 256 % 256 == b[1] && n % 256 == b[2];
  }

  /** No header is the beginning of another one. */
  lemma PrefixFree(c1: byte, a1: Text, c2: byte, a2: Text)
    requires |a1| <= MAX_ADDRESS && |a2| <= MAX_ADDRESS
    requires EncodeHeader(c1, a1) <= EncodeHeader(c2, a2)
    ensures c1 == c2 && a1 == a2
  {
    var rest := EncodeHeader(c2, a2)[|EncodeHeader(c1, a1)|..];
    assert EncodeHeader(c2, a2) == EncodeHeader(c1, a1) + rest;
    HeaderRoundTripExact(c1, a1, rest);
    HeaderRoundTripExact(c2, a2, []);
    assert EncodeHeader(c2, a2) + [] == EncodeHeader(c2, a2);
  }

  /** A header that was cut short is never taken for a header. */
  lemma CutHeaderTruncated(cmd: byte, addr: Text, k: nat)
    requires |addr| <= MAX_ADDRESS && k < |EncodeHeader(cmd, addr)|
    ensures DecodeHeader(EncodeHeader(cmd, addr)[..k]) == Decoded(Truncated, k)
  {
    LengthBytes(|addr|);
  }

  /** An address of 4097 to 65535 bytes is refused whatever follows. */
  lemma LongAddressRefused(cmd: byte, addr: Text, rest: seq<byte>)
    requires MAX_ADDRESS < |addr| < 65536
    ensures DecodeHeader(EncodeHeader(cmd, addr) + rest) == Decoded(TooLong(|addr|), 3)
  {
    var b := EncodeHeader(cmd, addr) + rest;
    LengthBytes(|addr|);
    assert b[1] == |addr| / 256 % 256 && b[2] == |addr| % 256;
  }

  // ------------------------------------------------------ fragmenting transport

  function Flatten(chunks: seq<seq<byte>>): seq<byte> {
    if chunks == [] then [] else chunks[0] + Flatten(chunks[1..])
  }

  lemma FlattenCons(c: seq<byte>, later: seq<seq<byte>>)
    ensures Flatten([c] + later) == c + Flatten(later)
  {
    assert ([c] + later)[1..] == later;
  }

  /** A reader that hands out its bytes in arbitrary chunks, empty ones included, and then fails. */
  class Source {
    var chunks: seq<seq<byte>>

    constructor (chunks: seq<seq<byte>>)
      ensures this.chunks == chunks
    {
      this.chunks := chunks;
    }

    /** Fills buf from index i on with what the next chunk offers. */
    method Read(buf: array<byte>, i: nat) returns (n: nat, ok: bool)
      requires i < buf.Length
      modifies this, buf
      ensures ok <==> old(chunks) != []
      ensures i + n <= buf.Length && buf[..i] == old(buf[..i])
      ensures old(Flatten(chunks)) == buf[i..i + n] + Flatten(chunks)
      ensures ok ==> |Flatten(chunks)| + |chunks| < old(|Flatten(chunks)| + |chunks|)
      ensures !ok ==> n == 0 && chunks == []
    {
      if chunks == [] { return 0, false; }
      var c, later := chunks[0], chunks[1..];
      FlattenCons(c, later);
      assert chunks == [c] + later;
      hide Flatten;
      n := if |c| <= buf.Length - i then |c| else buf.Length - i;
      forall k | 0 <= k < n { buf[i + k] := c[k]; }
      assert buf[i..i + n] == c[..n] && c == c[..n] + c[n..];
      chunks := if n == |c| then later else [c[n..]] + later;
      FlattenCons(c[n..], later);
      ok := true;
    }
  }

  /** io.ReadFull: the whole buffer or nothing usable, however the bytes are cut up. */
  method ReadFull(r: Source, buf: array<byte>) returns (ok: bool)
    modifies r, buf
    ensures ok <==> buf.Length <= |old(Flatten(r.chunks))|
    ensures ok ==> old(Flatten(r.chunks)) == buf[..] + Flatten(r.chunks)
    ensures !ok ==> Flatten(r.chunks) == []
  {
    ghost var all := Flatten(r.chunks);
    var got := 0;
    while got < buf.Length
      invariant 0 <= got <= buf.Length
      invariant all == buf[..got] + Flatten(r.chunks)
      decreases |Flatten(r.chunks)| + |r.chunks|
    {
      ghost var before := buf[..got];
      var n, more := r.Read(buf, got);
      assert buf[..got + n] == before + buf[got..got + n];
      if !more { return false; }
      got := got + n;
    }
    assert buf[..] == buf[..got];
    ok := true;
  }

  /** Reading a header depends only on the bytes of the stream, not on how they arrive. */
  method ReadHeader(r: Source) returns (result: Result)
    modifies r
    ensures result == DecodeHeader(old(Flatten(r.chunks))).result
    ensures Flatten(r.chunks) == old(Flatten(r.chunks))[DecodeHeader(old(Flatten(r.chunks))).used..]
  {
    ghost var all := Flatten(r.chunks);
    var hdr := new byte[3];
    var ok := ReadFull(r, hdr);
    if !ok {
      return Truncated;
    }
    var cmd, n := hdr[0], hdr[1] as nat * 256 + hdr[2] as nat;
    assert all[..3] == hdr[..] && all[3..] == Flatten(r.chunks);
    assert hdr[0] == all[0] && hdr[1] == all[1] && hdr[2] == all[2];
    if n > MAX_ADDRESS {
      return TooLong(n);
    }
    var addr := new byte[n];
    ok := ReadFull(r, addr);
    if !ok {
      return Truncated;
    }
    assert all[3..][..n] == addr[..] && all[3..][n..] == Flatten(r.chunks);
    assert all[3..3 + n] == all[3..][..n] && all[3 + n..] == all[3..][n..];
    return Ok(Header(cmd, addr[..]));
  }

  /** A writer that accepts `room` more bytes and then fails. */
  class Sink {
    var accepted: seq<byte>
    var room: nat

    constructor (room: nat)
      ensures accepted == [] && this.room == room
    {
      accepted, this.room := [], room;
    }

    method Write(buf: array<byte>) returns (ok: bool)
      modifies this
      ensures ok <==> buf.Length <= old(room)
      ensures var n := if ok then buf.Length else old(room);
              accepted == old(accepted) + buf[..n] && room == old(room) - n
    {
      var n := if buf.Length <= room then buf.Length else room;
      ok := n == buf.Length;
      accepted, room := accepted + buf[..n], room - n;
    }
  }

  method WriteHeader(w: Sink, cmd: byte, addr: Text) returns (ok: bool)
    modifies w
    ensures var h := EncodeHeader(cmd, addr);
            && (ok <==> |h| <= old(w.room))
            && w.accepted == old(w.accepted) + (if ok then h else h[..old(w.room)])
  {
    var buf := new byte[3 + |addr|];
    buf[0] := cmd;
    buf[1], buf[2] := |addr| / 256 % 256, |addr| % 256;
    forall i | 0 <= i < |addr| { buf[3 + i] := addr[i]; }
    assert buf[..] == EncodeHeader(cmd, addr);
    ok := w.Write(buf);
    assert ok ==> buf[..buf.Length] == buf[..];
  }
}
