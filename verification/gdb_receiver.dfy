/** The receiver itself: a 4096-byte buffer in front of a socket that delivers the
    stream in arbitrary pieces, proved against the stream-level meaning. */
module GdbReceiver {
  import opened Words
  import opened GdbPackets

  /** What successive `recv` calls meet: a signal, some bytes, or the end of the connection. */
  datatype Event = Interrupted | Data(bytes: Text) | Hangup

  /** The bytes still to come, however they are cut into pieces. */
  function Arriving(events: seq<Event>): Text {
    if events == [] then []
    else
      match events[0]
      case Interrupted => Arriving(events[1..])
      case Data(bytes) => if bytes == [] then [] else bytes + Arriving(events[1..])
      case Hangup => []
  }

  /** `n` times '-'. */
  function Dashes(n: nat): Text {
    seq(n, _ => 0x2D)
  }

  datatype Status = PacketReceived | Interrupting | ConnectionClosed

  datatype Poll = Idle | InterruptSeen | PeerClosed

  // ---- Steps of Receive, one byte at a time ----

  lemma ReceiveNothing()
    ensures Receive([]) == Reception(Closed, 0)
  {
  }

  lemma ReceiveOne(c: Byte, rest: Text)
    ensures Receive([c] + rest) ==
              if c == DOLLAR then ReceiveBody(rest)
              else if c == CTRL_C then Reception(Interrupt(rest), 0)
              else Receive(rest)
  {
    var s := [c] + rest;
    if c == DOLLAR || c == CTRL_C {
      FrameStartUnique(s, 0);
      assert s[1..] == rest;
    } else {
      SkipsNoise([c], rest);
    }
  }

  /** A body that ends before its '#' and two digits is never a packet. */
  lemma BodyCutShort(raw: Text, tail: Text)
    requires HASH !in raw && |tail| < 3 && (tail == [] || tail[0] == HASH)
    ensures ReceiveBody(raw + tail) == Reception(Closed, 0)
  {
    var s := raw + tail;
    var h := IndexOf(s, HASH, 0);
    assert forall k :: 0 <= k < |raw| ==> s[k] == raw[k];
    assert |raw| <= h;
    assert tail != [] ==> s[|raw|] == HASH;
  }

  method ComputeChecksum(data: Text) returns (sum: Byte)
    ensures sum == Checksum(data)
  {
    sum := 0;
    for i := 0 to |data|
      invariant sum == Checksum(data[..i])
    {
      sum := (sum + data[i]) % 256;
      assert data[..i + 1][..i] == data[..i];
    }
    assert data[..|data|] == data;
  }

  function Prefixed(done: Text, rest: Option<Text>): Option<Text> {
    if rest.Some? then Some(done + rest.value) else None
  }

  lemma PrefixedOne(done: Text, c: Byte, rest: Option<Text>)
    ensures Prefixed(done, Prefixed([c], rest)) == Prefixed(done + [c], rest)
    ensures Prefixed([], rest) == rest && Prefixed(done, Some([])) == Some(done)
  {
    if rest.Some? {
      assert done + ([c] + rest.value) == done + [c] + rest.value;
      assert [] + rest.value == rest.value;
    }
    assert done + [] == done;
  }

  /** '}' followed by c stands for c ^ 0x20; a body must not end inside an escape. */
  method UndoEscapes(raw: Text) returns (decoded: Option<Text>)
    ensures decoded == Unescape(raw)
  {
    var out: Text := [];
    var i := 0;
    assert raw[0..] == raw;
    PrefixedOne([], 0, Unescape(raw));
    while i < |raw|
      invariant 0 <= i <= |raw|
      invariant Unescape(raw) == Prefixed(out, Unescape(raw[i..]))
    {
      ghost var rest := raw[i..];
      if raw[i] != ESCAPE {
        assert rest[1..] == raw[i + 1..];
        PrefixedOne(out, raw[i], Unescape(raw[i + 1..]));
        out := out + [raw[i]];
      } else {
        i := i + 1;
        if i == |raw| {
          return None;
        }
        assert rest[1] == raw[i] && rest[2..] == raw[i + 1..];
        PrefixedOne(out, FlipBit5(raw[i]), Unescape(raw[i + 1..]));
        out := out + [FlipBit5(raw[i])];
      }
      i := i + 1;
    }
    PrefixedOne(out, 0, None);
    return Some(out);
  }

  class PacketReceiver {
    const rxBuf: array<Byte>
    var rxBegin: nat
    var rxEnd: nat
    var incoming: seq<Event>
    var sent: Text

    constructor (events: seq<Event>)
      ensures Valid() && FullIsScanned() && fresh(rxBuf) && Stream() == Arriving(events) && sent == []
    {
      rxBuf := new Byte[BUFFER_SIZE](_ => 0);
      rxBegin, rxEnd, incoming, sent := 0, 0, events, [];
      new;
      assert rxBuf[0..0] + Arriving(events) == Arriving(events);
    }

    ghost predicate Valid()
      reads this
    {
      rxBuf.Length == BUFFER_SIZE && rxBegin <= rxEnd <= BUFFER_SIZE
    }

    ghost function Unread(): Text
      requires Valid()
      reads this, rxBuf
    {
      rxBuf[rxBegin..rxEnd]
    }

    /** Everything the peer has sent or will send and the receiver has not consumed. */
    ghost function Stream(): Text
      requires Valid()
      reads this, rxBuf
    {
      Unread() + Arriving(incoming)
    }

    /** A buffer full of unread bytes has been scanned and holds no Ctrl-C. */
    ghost predicate FullIsScanned()
      requires Valid()
      reads this, rxBuf
    {
      |Unread()| == BUFFER_SIZE ==> CTRL_C !in Unread()
    }

    /** One `recv` into the buffer from index `at`: positive for bytes, 0 for a signal, -1 for the end. */
    method Recv(at: nat) returns (n: int)
      requires Valid() && at < BUFFER_SIZE
      modifies this`incoming, rxBuf
      ensures -1 <= n <= BUFFER_SIZE - at && |incoming| <= old(|incoming|)
      ensures rxBuf[..at] == old(rxBuf[..at])
      ensures n > 0 ==> old(Arriving(incoming)) == rxBuf[at..at + n] + Arriving(incoming)
      ensures n == 0 ==> Arriving(incoming) == old(Arriving(incoming)) && |incoming| < old(|incoming|)
      ensures n < 0 ==> old(Arriving(incoming)) == [] && Arriving(incoming) == []
    {
      if |incoming| == 0 {
        return -1;
      }
      match incoming[0]
      case Interrupted =>
        incoming := incoming[1..];
        return 0;
      case Hangup =>
        return -1;
      case Data(bytes) =>
        if bytes == [] {
          return -1;
        }
        n := if |bytes| <= BUFFER_SIZE - at then |bytes| else BUFFER_SIZE - at;
        for i := 0 to n
          invariant incoming == old(incoming)
          invariant rxBuf[..at] == old(rxBuf[..at])
          invariant rxBuf[at..at + i] == bytes[..i]
        {
          rxBuf[at + i] := bytes[i];
        }
        ghost var later := Arriving(incoming[1..]);
        if n < |bytes| {
          incoming := [Data(bytes[n..])] + incoming[1..];
          assert incoming[1..] == old(incoming)[1..];
          assert bytes[..n] + (bytes[n..] + later) == bytes + later;
        } else {
          incoming := incoming[1..];
          assert bytes[..n] == bytes;
        }
    }

    /** Wait until the buffer holds unread bytes; false when the connection is over. */
    method Refill() returns (ok: bool)
      requires Valid()
      modifies this`rxBegin, this`rxEnd, this`incoming, rxBuf
      ensures Valid() && Stream() == old(Stream())
      ensures ok ==> rxBegin < rxEnd
      ensures !ok ==> Stream() == [] && rxBegin == rxEnd
    {
      while rxBegin == rxEnd
        invariant Valid() && Stream() == old(Stream())
        decreases |incoming|, rxBegin == rxEnd
      {
        ghost var arriving := Arriving(incoming);
        assert Stream() == arriving;
        var n := Recv(0);
        hide Arriving;
        if n < 0 {
          assert Stream() == Unread();
          return false;
        }
        if n > 0 {
          rxBegin, rxEnd := 0, n;
          assert Unread() == rxBuf[0..0 + n];
        }
      }
      ok := true;
    }

    /** The next byte of the stream; false when the connection is over. */
    method ReadByte() returns (ok: bool, c: Byte)
      requires Valid()
      modifies this`rxBegin, this`rxEnd, this`incoming, rxBuf
      ensures Valid() && rxEnd - rxBegin < BUFFER_SIZE
      ensures ok <==> old(Stream()) != []
      ensures ok ==> old(Stream()) == [c] + Stream()
      ensures !ok ==> Stream() == []
    {
      hide Arriving;
      c := 0;
      ok := Refill();
      if ok {
        ghost var unread, arriving := Unread(), Arriving(incoming);
        c := rxBuf[rxBegin];
        rxBegin := rxBegin + 1;
        assert unread == [c] + Unread();
        assert [c] + Unread() + arriving == [c] + (Unread() + arriving);
      }
    }

    method SendRaw(s: Text)
      modifies this`sent
      ensures sent == old(sent) + s
    {
      sent := sent + s;
    }

    /** Skip acks and noise up to a '$' or a bare Ctrl-C. */
    method FindFrame() returns (ok: bool, c: Byte)
      requires Valid()
      modifies this`rxBegin, this`rxEnd, this`incoming, rxBuf
      ensures Valid() && rxEnd - rxBegin < BUFFER_SIZE
      ensures !ok ==> Receive(old(Stream())) == Reception(Closed, 0) && Stream() == []
      ensures ok ==> (c == DOLLAR || c == CTRL_C) && |Stream()| < |old(Stream())|
      ensures ok ==> Receive(old(Stream())) == if c == DOLLAR then ReceiveBody(Stream()) else Reception(Interrupt(Stream()), 0)
    {
      hide Receive, ReceiveBody, Stream, Unread, Arriving;
      ReceiveNothing();
      while true
        invariant Valid() && Receive(Stream()) == Receive(old(Stream())) && |Stream()| <= |old(Stream())|
        decreases |Stream()|
      {
        ok, c := ReadByte();
        if !ok {
          return;
        }
        ReceiveOne(c, Stream());
        if c == DOLLAR || c == CTRL_C {
          return;
        }
      }
    }

    /** Read a frame's body up to its '#'. Past the size limit nothing more is stored. */
    method ReadBody() returns (ok: bool, out: Text, tooLong: bool, ghost raw: Text)
      requires Valid()
      modifies this`rxBegin, this`rxEnd, this`incoming, rxBuf
      ensures Valid() && rxEnd - rxBegin < BUFFER_SIZE && HASH !in raw && |out| <= MAX_PACKET
      ensures ok ==> old(Stream()) == raw + [HASH] + Stream()
      ensures !ok ==> old(Stream()) == raw && Stream() == []
      ensures tooLong <==> |raw| > MAX_PACKET
      ensures !tooLong ==> out == raw
    {
      hide Stream, Unread, Arriving;
      out, tooLong, raw := [], false, [];
      while true
        invariant Valid() && HASH !in raw && |out| <= MAX_PACKET
        invariant old(Stream()) == raw + Stream()
        invariant tooLong <==> |raw| > MAX_PACKET
        invariant out == if tooLong then raw[..MAX_PACKET] else raw
        decreases |Stream()|
      {
        var c;
        ok, c := ReadByte();
        if !ok {
          return;
        }
        assert raw + ([c] + Stream()) == (raw + [c]) + Stream();
        if c == HASH {
          return;
        }
        if |out| < MAX_PACKET {
          out := out + [c];
        } else {
          tooLong := true;
        }
        raw := raw + [c];
      }
    }

    /** Read the two digits after the '#'. */
    method ReadTrailer() returns (ok: bool, hi: Byte, lo: Byte)
      requires Valid()
      modifies this`rxBegin, this`rxEnd, this`incoming, rxBuf
      ensures Valid() && rxEnd - rxBegin < BUFFER_SIZE
      ensures ok ==> old(Stream()) == [hi, lo] + Stream()
      ensures !ok ==> |old(Stream())| < 2 && Stream() == []
    {
      hide Stream, Unread, Arriving;
      lo := 0;
      ok, hi := ReadByte();
      if !ok {
        return;
      }
      ghost var after := Stream();
      ok, lo := ReadByte();
      if ok {
        assert [hi] + ([lo] + Stream()) == [hi, lo] + Stream();
      }
    }

    /** One frame, from just after its '$': `verdict` is its payload, or nothing if it must be refused. */
    method ReadFrame() returns (ok: bool, out: Text, verdict: Option<Text>)
      requires Valid()
      modifies this`rxBegin, this`rxEnd, this`incoming, rxBuf
      ensures Valid() && rxEnd - rxBegin < BUFFER_SIZE && |out| <= MAX_PACKET
      ensures verdict.Some? ==> |verdict.value| <= MAX_PACKET
      ensures !ok ==> ReceiveBody(old(Stream())) == Reception(Closed, 0) && Stream() == []
      ensures ok ==> |Stream()| < |old(Stream())|
      ensures ok && verdict.Some? ==> ReceiveBody(old(Stream())) == Reception(Packet(verdict.value, Stream()), 0)
      ensures ok && verdict.None? ==> ReceiveBody(old(Stream())) == Reception(Receive(Stream()).reply, Receive(Stream()).naks + 1)
    {
      hide Receive, ReceiveBody, Checksum, Unescape, Acceptable, Stream, Unread, Arriving;
      verdict := None;
      var tooLong;
      ghost var raw;
      ghost var body := Stream();
      ok, out, tooLong, raw := ReadBody();
      if !ok {
        assert raw + [] == raw;
        BodyCutShort(raw, []);
        return;
      }
      ghost var trailer := Stream();
      var hi, lo;
      ok, hi, lo := ReadTrailer();
      if !ok {
        assert body == raw + ([HASH] + trailer);
        BodyCutShort(raw, [HASH] + trailer);
        return;
      }
      assert body == raw + [HASH, hi, lo] + Stream();
      BodyOfFrame(raw, hi, lo, Stream());
      AcceptableMeans(raw, hi, lo);
      verdict := Judge(out, tooLong, hi, lo, raw);
    }

    /** The next packet of the stream: exactly what `Receive` says of it, in whatever
        pieces it arrives, with one '-' sent per refused frame and a '+' for the packet. */
    method RecvPacket() returns (status: Status, out: Text)
      requires Valid()
      modifies this, rxBuf
      ensures Valid() && FullIsScanned() && |out| <= 0x4000
      ensures var r := Receive(old(Stream()));
              match r.reply
              case Packet(payload, rest) =>
                status == PacketReceived && out == payload && Stream() == rest
                && sent == old(sent) + Dashes(r.naks) + [0x2B]
              case Interrupt(rest) =>
                status == Interrupting && Stream() == rest && sent == old(sent) + Dashes(r.naks)
              case Closed =>
                status == ConnectionClosed && Stream() == [] && sent == old(sent) + Dashes(r.naks)
    {
      hide Receive, ReceiveBody, Arriving;
      ghost var whole := Receive(Stream());
      ghost var refused := 0;
      assert sent + Dashes(0) == sent;
      while true
        invariant Valid()
        invariant Receive(Stream()).reply == whole.reply && refused + Receive(Stream()).naks == whole.naks
        invariant sent == old(sent) + Dashes(refused)
        decreases |Stream()|
      {
        out := [];
        var ok, c := FindFrame();
        if !ok {
          return ConnectionClosed, out;
        }
        if c == CTRL_C {
          return Interrupting, out;
        }
        var verdict;
        ok, out, verdict := ReadFrame();
        if !ok {
          return ConnectionClosed, out;
        }
        if verdict.Some? {
          out := verdict.value;
          SendRaw([PLUS]);
          return PacketReceived, out;
        }
        SendRaw([MINUS]);
        refused := refused + 1;
        assert Dashes(refused) == Dashes(refused - 1) + [MINUS];
      }
    }

    /** Judge the stored body, which is the whole one unless it was too long. */
    method Judge(out: Text, tooLong: bool, hi: Byte, lo: Byte, ghost raw: Text) returns (verdict: Option<Text>)
      requires tooLong <==> |raw| > MAX_PACKET
      requires !tooLong ==> out == raw
      ensures verdict == if Acceptable(raw, hi, lo) then Unescape(raw) else None
    {
      verdict := None;
      if !tooLong {
        var sum := ComputeChecksum(out);
        if HexDigit(hi).Some? && HexDigit(lo).Some? && HexDigit(hi).value * 16 + HexDigit(lo).value == sum {
          verdict := UndoEscapes(out);
        }
      }
    }

    /** A non-blocking look for Ctrl-C while the target runs. `waiting` says whether the
        socket has anything to report. No Ctrl-C is ever missed: a full buffer that is
        dropped held none. */
    method PollInput(waiting: bool) returns (poll: Poll, ghost arrived: Text)
      requires Valid() && FullIsScanned()
      modifies this`rxBegin, this`rxEnd, this`incoming, rxBuf
      ensures Valid() && FullIsScanned()
      ensures old(Arriving(incoming)) == arrived + Arriving(incoming)
      ensures !waiting ==> arrived == []
      ensures poll == InterruptSeen <==> CTRL_C in old(Unread()) + arrived
      ensures var pending := (if old(|Unread()|) == 4096 then [] else old(Unread())) + arrived;
              Unread() == if CTRL_C in pending then pending[IndexOf(pending, CTRL_C, 0) + 1..] else pending
      ensures poll == PeerClosed ==> arrived == [] && Arriving(incoming) == []
    {
      hide Arriving;
      ghost var kept := if |Unread()| == BUFFER_SIZE then [] else Unread();
      MakeRoom();
      var n := 0;
      arrived := [];
      assert Arriving(incoming) == [] + Arriving(incoming);
      assert kept + [] == kept;
      if waiting {
        n, arrived := Append();
      }
      ghost var pending := kept + arrived;
      assert old(Arriving(incoming)) == arrived + Arriving(incoming);
      assert Unread() == pending;
      var seen := ScanForInterrupt();
      poll := if seen then InterruptSeen else if n < 0 then PeerClosed else Idle;
    }

    /** Compact the buffer; a full one is dropped. */
    method MakeRoom()
      requires Valid()
      modifies this`rxBegin, this`rxEnd, rxBuf
      ensures Valid() && rxBegin == 0 && rxEnd < BUFFER_SIZE
      ensures Unread() == if old(|Unread()|) == BUFFER_SIZE then [] else old(Unread())
    {
      Compact();
      if rxEnd == BUFFER_SIZE {
        rxEnd := 0;
      }
    }

    /** Read what is waiting behind the unread bytes. */
    method Append() returns (n: int, ghost arrived: Text)
      requires Valid() && rxBegin == 0 && rxEnd < BUFFER_SIZE
      modifies this`rxEnd, this`incoming, rxBuf
      ensures Valid() && rxBegin == 0
      ensures Unread() == old(Unread()) + arrived
      ensures old(Arriving(incoming)) == arrived + Arriving(incoming)
      ensures n < 0 ==> arrived == [] && Arriving(incoming) == []
    {
      hide Arriving;
      arrived := [];
      n := Recv(rxEnd);
      if n > 0 {
        arrived := rxBuf[rxEnd..rxEnd + n];
        assert rxBuf[..rxEnd + n] == rxBuf[..rxEnd] + arrived;
        rxEnd := rxEnd + n;
      }
    }

    /** Consume the unread bytes up to and including the first Ctrl-C, if there is one. */
    method ScanForInterrupt() returns (seen: bool)
      requires Valid()
      modifies this`rxBegin
      ensures Valid()
      ensures seen <==> CTRL_C in old(Unread())
      ensures seen ==> Unread() == old(Unread())[IndexOf(old(Unread()), CTRL_C, 0) + 1..]
      ensures !seen ==> Unread() == old(Unread())
    {
      ghost var pending := Unread();
      var i := rxBegin;
      while i < rxEnd
        invariant rxBegin <= i <= rxEnd && CTRL_C !in pending[..i - rxBegin]
        invariant rxBegin == old(rxBegin)
      {
        assert rxBuf[i] == pending[i - rxBegin];
        if rxBuf[i] == CTRL_C {
          IndexIs(pending, CTRL_C, i - rxBegin);
          rxBegin := i + 1;
          assert Unread() == pending[IndexOf(pending, CTRL_C, 0) + 1..];
          return true;
        }
        i := i + 1;
        assert pending[..i - rxBegin] == pending[..i - 1 - rxBegin] + [pending[i - 1 - rxBegin]];
      }
      assert pending[..i - rxBegin] == pending;
      return false;
    }

    /** Move the unread bytes to the front of the buffer. */
    method Compact()
      requires Valid()
      modifies this`rxBegin, this`rxEnd, rxBuf
      ensures Valid() && rxBegin == 0 && Unread() == old(Unread())
    {
      if rxBegin > 0 {
        ghost var unread := Unread();
        var n := rxEnd - rxBegin;
        for i := 0 to n
          invariant rxBegin == old(rxBegin)
          invariant forall k :: 0 <= k < i ==> rxBuf[k] == unread[k]
          invariant forall k :: i <= k < n ==> rxBuf[rxBegin + k] == unread[k]
        {
          rxBuf[i] := rxBuf[rxBegin + i];
        }
        rxBegin, rxEnd := 0, n;
        assert Unread() == unread;
      }
    }
  }

  lemma IndexIs(s: Text, c: Byte, i: nat)
    requires i < |s| && s[i] == c && c !in s[..i]
    ensures IndexOf(s, c, 0) == i
  {
    var h := IndexOf(s, c, 0);
    assert forall k :: 0 <= k < i ==> s[..i][k] == s[k];
    assert !(h < i);
  }
}
