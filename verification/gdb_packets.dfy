/** The GDB Remote Serial Protocol packet receiver (`GdbStub::recv_packet`,
    `read_byte`, `poll_input`): a buffered byte stream, frames, checksums and escapes. */
module GdbPackets {
  import opened Words

  type Text = seq<Byte>

  const DOLLAR: Byte := 0x24
  const HASH: Byte := 0x23
  const ESCAPE: Byte := 0x7D
  const STAR: Byte := 0x2A
  const CTRL_C: Byte := 0x03
  const PLUS: Byte := 0x2B
  const MINUS: Byte := 0x2D
  const MAX_PACKET: nat := 0x4000
  const BUFFER_SIZE: nat := 4096

  // ---- Checksums, hex digits, escapes ----

  function Checksum(data: Text): Byte {
    if data == [] then 0 else (Checksum(data[..|data| - 1]) + data[|data| - 1]) % 256
  }

  function HexDigit(c: Byte): Option<nat> {
    if 0x30 <= c <= 0x39 then Some(c - 0x30)
    else if 0x41 <= c <= 0x46 then Some(c - 0x41 + 10)
    else if 0x61 <= c <= 0x66 then Some(c - 0x61 + 10)
    else None
  }

  /** The two received characters are hex digits spelling the checksum of `data`. */
  predicate ChecksumMatches(data: Text, hi: Byte, lo: Byte) {
    && HexDigit(hi).Some? && HexDigit(lo).Some?
    && HexDigit(hi).value * 16 + HexDigit(lo).value == Checksum(data)
  }

  /** c ^ 0x20. */
  function FlipBit5(c: Byte): Byte {
    if (c / 32) % 2 == 1 then c - 32 else c + 32
  }

  function Unescape(raw: Text): Option<Text> {
    if raw == [] then Some([])
    else if raw[0] != ESCAPE then
      match Unescape(raw[1..])
      case Some(t) => Some([raw[0]] + t)
      case None => None
    else if |raw| == 1 then None
    else
      match Unescape(raw[2..])
      case Some(t) => Some([FlipBit5(raw[1])] + t)
      case None => None
  }

  // ---- What the receiver should do with a byte stream ----

  datatype Reply =
    | Packet(payload: Text, rest: Text)
    | Interrupt(rest: Text)
    | Closed

  /** The reply, and how many frames were refused on the way. */
  datatype Reception = Reception(reply: Reply, naks: nat)

  function IndexOf(s: Text, c: Byte, from: nat): (i: nat)
    requires from <= |s|
    ensures from <= i <= |s|
    ensures i < |s| ==> s[i] == c
    ensures forall k :: from <= k < i ==> s[k] != c
    decreases |s| - from
  {
    if from == |s| || s[from] == c then from else IndexOf(s, c, from + 1)
  }

  /** The first '$' or Ctrl-C. */
  function FrameStart(s: Text): (i: nat)
    ensures i <= |s|
    ensures i < |s| ==> s[i] == DOLLAR || s[i] == CTRL_C
    ensures forall k :: 0 <= k < i ==> s[k] != DOLLAR && s[k] != CTRL_C
  {
    if s == [] || s[0] == DOLLAR || s[0] == CTRL_C then 0 else 1 + FrameStart(s[1..])
  }

  predicate Acceptable(raw: Text, hi: Byte, lo: Byte) {
    |raw| <= MAX_PACKET && ChecksumMatches(raw, hi, lo) && Unescape(raw).Some?
  }

  function Receive(s: Text): Reception
    decreases |s|
  {
    var d := FrameStart(s);
    if d == |s| then Reception(Closed, 0)
    else if s[d] == CTRL_C then Reception(Interrupt(s[d + 1..]), 0)
    else ReceiveBody(s[d + 1..])
  }

  /** From just after the '$'. */
  function ReceiveBody(s: Text): Reception
    decreases |s|
  {
    var h := IndexOf(s, HASH, 0);
    if |s| < h + 3 then Reception(Closed, 0)
    else if Acceptable(s[..h], s[h + 1], s[h + 2]) then
      Reception(Packet(Unescape(s[..h]).value, s[h + 3..]), 0)
    else
      var r := Receive(s[h + 3..]);
      Reception(r.reply, r.naks + 1)
  }

  // ---- The sending side of the protocol, as GDB performs it ----

  predicate Special(c: Byte) {
    c == DOLLAR || c == HASH || c == ESCAPE || c == STAR
  }

  function Escape(payload: Text): (raw: Text)
    ensures forall k :: 0 <= k < |raw| ==> raw[k] != HASH && raw[k] != DOLLAR
  {
    if payload == [] then []
    else (if Special(payload[0]) then [ESCAPE, FlipBit5(payload[0])] else [payload[0]]) + Escape(payload[1..])
  }

  function HexChar(n: nat): Byte
    requires n < 16
  {
    if n < 10 then 0x30 + n else 0x61 + (n - 10)
  }

  function Frame(raw: Text, hi: Byte, lo: Byte): Text {
    [DOLLAR] + raw + [HASH, hi, lo]
  }

  function Encoded(payload: Text): Text {
    var raw := Escape(payload);
    Frame(raw, HexChar(Checksum(raw) / 16), HexChar(Checksum(raw) % 16))
  }

  lemma FlipTwice(c: Byte)
    ensures FlipBit5(FlipBit5(c)) == c
  {
  }

  lemma {:induction false} UnescapeEscape(payload: Text)
    ensures Unescape(Escape(payload)) == Some(payload)
  {
    if payload != [] {
      var c, tail := payload[0], Escape(payload[1..]);
      UnescapeEscape(payload[1..]);
      var raw := Escape(payload);
      FlipTwice(c);
      assert payload == [c] + payload[1..];
      if Special(c) {
        assert raw[0] == ESCAPE && raw[1] == FlipBit5(c);
        assert raw[2..] == tail;
      } else {
        assert raw[1..] == tail;
      }
    }
  }

  /** A frame's body runs to its '#'. */
  lemma BodyOfFrame(raw: Text, hi: Byte, lo: Byte, rest: Text)
    requires HASH !in raw
    ensures var s := raw + [HASH, hi, lo] + rest;
            ReceiveBody(s) == if Acceptable(raw, hi, lo) then Reception(Packet(Unescape(raw).value, rest), 0)
                              else Reception(Receive(rest).reply, Receive(rest).naks + 1)
  {
    var s := raw + [HASH, hi, lo] + rest;
    var h := IndexOf(s, HASH, 0);
    assert s[|raw|] == HASH;
    assert forall k :: 0 <= k < |raw| ==> s[k] == raw[k];
    assert h == |raw|;
    assert s[..h] == raw && s[h + 3..] == rest && s[h + 1] == hi && s[h + 2] == lo;
  }

  lemma {:induction false} SkipsNoise(noise: Text, rest: Text)
    requires DOLLAR !in noise && CTRL_C !in noise
    ensures Receive(noise + rest) == Receive(rest)
  {
    hide ReceiveBody, FrameStart;
    var s := noise + rest;
    var d := FrameStart(rest);
    FrameStartUnique(s, |noise| + d);
    assert s[|noise| + d..] == rest[d..];
    if d < |rest| {
      assert s[|noise| + d + 1..] == rest[d + 1..];
    }
  }

  lemma FrameStartUnique(s: Text, i: nat)
    requires i <= |s|
    requires i < |s| ==> s[i] == DOLLAR || s[i] == CTRL_C
    requires forall k :: 0 <= k < i ==> s[k] != DOLLAR && s[k] != CTRL_C
    ensures FrameStart(s) == i
  {
    var d := FrameStart(s);
    assert !(i < d);
    assert !(d < i);
  }

  lemma FrameReceived(raw: Text, hi: Byte, lo: Byte, rest: Text)
    requires HASH !in raw
    ensures Receive(Frame(raw, hi, lo) + rest) ==
              if Acceptable(raw, hi, lo) then Reception(Packet(Unescape(raw).value, rest), 0)
              else Reception(Receive(rest).reply, Receive(rest).naks + 1)
  {
    var s := Frame(raw, hi, lo) + rest;
    FrameStartUnique(s, 0);
    assert s[1..] == raw + [HASH, hi, lo] + rest;
    BodyOfFrame(raw, hi, lo, rest);
  }

  /** What may precede a good frame on the wire. */
  datatype Junk = Noise(bytes: Text) | BadFrame(raw: Text, hi: Byte, lo: Byte)

  predicate IsJunk(j: Junk) {
    match j
    case Noise(bytes) => DOLLAR !in bytes && CTRL_C !in bytes
    case BadFrame(raw, hi, lo) => HASH !in raw && !Acceptable(raw, hi, lo)
  }

  function JunkBytes(js: seq<Junk>): Text {
    if js == [] then []
    else
      (match js[0]
       case Noise(bytes) => bytes
       case BadFrame(raw, hi, lo) => Frame(raw, hi, lo)) + JunkBytes(js[1..])
  }

  function BadFrames(js: seq<Junk>): nat {
    if js == [] then 0 else (if js[0].BadFrame? then 1 else 0) + BadFrames(js[1..])
  }

  lemma GoodFrameReceived(payload: Text, rest: Text)
    requires |Escape(payload)| <= MAX_PACKET
    ensures Receive(Encoded(payload) + rest) == Reception(Packet(payload, rest), 0)
  {
    hide Receive;
    var raw := Escape(payload);
    UnescapeEscape(payload);
    HexRoundTrip(Checksum(raw));
    FrameReceived(raw, HexChar(Checksum(raw) / 16), HexChar(Checksum(raw) % 16), rest);
  }

  /** Every payload gets through: after any noise and any bad frames, the receiver
      refuses each bad frame once and then returns exactly the payload, escapes undone. */
  lemma {:induction false} PayloadRecovered(js: seq<Junk>, payload: Text, rest: Text)
    requires forall j :: j in js ==> IsJunk(j)
    requires |Escape(payload)| <= 0x4000
    ensures Receive(JunkBytes(js) + Encoded(payload) + rest) == Reception(Packet(payload, rest), BadFrames(js))
  {
    hide Receive, Acceptable, Encoded, Escape;
    if js == [] {
      assert JunkBytes(js) + Encoded(payload) + rest == Encoded(payload) + rest;
      GoodFrameReceived(payload, rest);
    } else {
      var tail := JunkBytes(js[1..]) + Encoded(payload) + rest;
      PayloadRecovered(js[1..], payload, rest);
      assert IsJunk(js[0]);
      match js[0]
      case Noise(bytes) =>
        assert JunkBytes(js) + Encoded(payload) + rest == bytes + tail;
        SkipsNoise(bytes, tail);
      case BadFrame(raw, hi, lo) =>
        assert JunkBytes(js) + Encoded(payload) + rest == Frame(raw, hi, lo) + tail;
        FrameReceived(raw, hi, lo, tail);
    }
  }

  lemma HexRoundTrip(b: Byte)
    ensures HexDigit(HexChar(b / 16)) == Some(b / 16) && HexDigit(HexChar(b % 16)) == Some(b % 16)
  {
  }

  lemma SplitAt(s: Text, i: nat)
    requires i < |s|
    ensures s == s[..i] + [s[i]] + s[i + 1..]
  {
  }

  lemma SplitTrailer(body: Text, h: nat)
    requires h + 3 <= |body|
    ensures body == body[..h] + [body[h], body[h + 1], body[h + 2]] + body[h + 3..]
  {
  }

  lemma JoinFrame(noise: Text, raw: Text, hi: Byte, lo: Byte, rest: Text)
    ensures noise + [DOLLAR] + (raw + [HASH, hi, lo] + rest) == noise + Frame(raw, hi, lo) + rest
  {
  }

  lemma OpensWithDollar(s: Text)
    requires Receive(s).reply.Packet?
    ensures FrameStart(s) < |s| && s[FrameStart(s)] == DOLLAR
    ensures Receive(s) == ReceiveBody(s[FrameStart(s) + 1..])
  {
    hide ReceiveBody, FrameStart;
  }

  lemma BodyHasTrailer(body: Text)
    requires ReceiveBody(body).reply.Packet?
    ensures var h := IndexOf(body, HASH, 0);
            && h + 3 <= |body| && body[h] == HASH && HASH !in body[..h]
            && ReceiveBody(body).reply ==
                 if Acceptable(body[..h], body[h + 1], body[h + 2]) then Packet(Unescape(body[..h]).value, body[h + 3..])
                 else Receive(body[h + 3..]).reply
  {
    hide Acceptable, Unescape, IndexOf, Receive;
  }

  /** A stream starts with noise, then a frame up to its '#' and two digits, then the rest. */
  lemma SplitsAtFrame(s: Text) returns (noise: Text, raw: Text, hi: Byte, lo: Byte, rest: Text)
    requires Receive(s).reply.Packet?
    ensures s == noise + Frame(raw, hi, lo) + rest && HASH !in raw && |rest| < |s|
    ensures if Acceptable(raw, hi, lo) then Receive(s).reply == Packet(Unescape(raw).value, rest)
            else Receive(s).reply == Receive(rest).reply
  {
    hide Receive, Acceptable, Frame;
    OpensWithDollar(s);
    var d := FrameStart(s);
    var body := s[d + 1..];
    BodyHasTrailer(body);
    var h := IndexOf(body, HASH, 0);
    hide IndexOf, FrameStart, Unescape;
    noise, raw, hi, lo, rest := s[..d], body[..h], body[h + 1], body[h + 2], body[h + 3..];
    SplitAt(s, d);
    SplitTrailer(body, h);
    JoinFrame(noise, raw, hi, lo, rest);
  }

  /** A packet is only ever the unescaped body of a well-formed frame of the stream. */
  lemma {:induction false} PacketIsAFrame(s: Text) returns (before: Text, raw: Text, hi: Byte, lo: Byte)
    requires Receive(s).reply.Packet?
    ensures s == before + Frame(raw, hi, lo) + Receive(s).reply.rest
    ensures HASH !in raw && Acceptable(raw, hi, lo) && Unescape(raw) == Some(Receive(s).reply.payload)
    ensures |Receive(s).reply.payload| <= |raw| <= 0x4000
    decreases |s|
  {
    hide Receive, Acceptable, Frame, Unescape;
    var rest;
    before, raw, hi, lo, rest := SplitsAtFrame(s);
    AcceptableMeans(raw, hi, lo);
    if !Acceptable(raw, hi, lo) {
      var skipped := before + Frame(raw, hi, lo);
      var b;
      b, raw, hi, lo := PacketIsAFrame(rest);
      before := skipped + b;
      assert skipped + (b + Frame(raw, hi, lo) + Receive(s).reply.rest) == before + Frame(raw, hi, lo) + Receive(s).reply.rest;
    }
  }

  lemma AcceptableMeans(raw: Text, hi: Byte, lo: Byte)
    ensures Acceptable(raw, hi, lo) ==> Unescape(raw).Some? && |Unescape(raw).value| <= |raw| <= MAX_PACKET
  {
    UnescapeShrinks(raw);
  }

  lemma {:induction false} UnescapeShrinks(raw: Text)
    ensures Unescape(raw).Some? ==> |Unescape(raw).value| <= |raw|
    decreases |raw|
  {
    if raw != [] {
      UnescapeShrinks(raw[1..]);
      if 2 <= |raw| {
        UnescapeShrinks(raw[2..]);
      }
    }
  }

  // ---- The alphabet of the protocol ----

  lemma SumsModulo(x: Byte, y: Byte, z: Byte)
    ensures ((x as int + y) % 256 + z) % 256 == (x as int + (y as int + z) % 256) % 256
  {
  }

  lemma ChecksumOne(c: Byte)
    ensures Checksum([c]) == c
  {
    assert [c][..0] == [];
  }

  lemma SumStep(whole: Text, b: Text, c: Byte, x: Byte, y: Byte)
    requires b != [] && Checksum(b[..|b| - 1]) == y && b[|b| - 1] == c
    requires whole != [] && Checksum(whole[..|whole| - 1]) == (x as int + y) % 256 && whole[|whole| - 1] == c
    ensures Checksum(whole) == (x as int + Checksum(b)) % 256
  {
    ChecksumLast(whole);
    ChecksumLast(b);
    SumsModulo(x, y, c);
    hide Checksum;
  }

  /** The checksum of a concatenation is the sum of the checksums, modulo 256. */
  lemma {:induction false} ChecksumAdds(a: Text, b: Text)
    ensures Checksum(a + b) == (Checksum(a) as int + Checksum(b)) % 256
  {
    if b == [] {
      assert a + b == a;
    } else {
      hide Checksum;
      var n := |b| - 1;
      ChecksumAdds(a, b[..n]);
      assert (a + b)[..|a + b| - 1] == a + b[..n];
      SumStep(a + b, b, b[n], Checksum(a), Checksum(b[..n]));
    }
  }

  lemma ChecksumLast(data: Text)
    requires data != []
    ensures Checksum(data) == (Checksum(data[..|data| - 1]) as int + data[|data| - 1]) % 256
    ensures Checksum([]) == 0
  {
  }

  lemma LowestBit(c: nat)
    ensures Bit(c, 0) == (c % 2 == 1)
    ensures Pow2(0) == 1
  {
  }

  /** Adding 2^k flips bit k, keeps those below, and those above if bit k was clear. */
  lemma {:induction false} AddedPower(c: nat, k: nat, i: nat)
    ensures i < k ==> Bit(c + Pow2(k), i) == Bit(c, i)
    ensures i == k ==> Bit(c + Pow2(k), i) == !Bit(c, i)
    ensures i > k && !Bit(c, k) ==> Bit(c + Pow2(k), i) == Bit(c, i)
  {
    hide Bit;
    if k > 0 {
      EvenPlus(Pow2(k - 1), c);
    }
    if i == 0 || k == 0 {
      LowestBit(c);
      LowestBit(c + Pow2(k));
    }
    if i > 0 {
      BitHalf(c + Pow2(k), i);
      BitHalf(c, i);
      if k > 0 {
        BitHalf(c, k);
        AddedPower(c / 2, k - 1, i - 1);
      }
    }
  }

  lemma FlipsUp(c: Byte)
    ensures var d := FlipBit5(c);
            if c <= d then d == c + 32 && (c / 32) % 2 == 0 else c == d + 32 && (d / 32) % 2 == 0
  {
  }

  /** Escaping changes bit 5 and no other. */
  lemma FlipBits(c: Byte, i: nat)
    requires i < 8
    ensures Bit(FlipBit5(c), i) == (Bit(c, i) != (i == 5))
  {
    assert Pow2(5) == 32;
    hide Pow2, FlipBit5;
    FlipsUp(c);
    AddedPower(if c <= FlipBit5(c) then c else FlipBit5(c), 5, i);
  }

  /** Hexadecimal digits of either case, and no other characters. */
  lemma HexDigits(c: Byte, n: nat)
    requires n < 16
    ensures HexDigit(c) == Some(n) <==> c as char == "0123456789abcdef"[n] || c as char == "0123456789ABCDEF"[n]
  {
  }

  function Ascii(s: string): Text
    requires forall k :: 0 <= k < |s| ==> s[k] < 128 as char
  {
    seq(|s|, k requires 0 <= k < |s| => s[k] as int)
  }

  /** Frames as they appear on the wire: `OK`, and payloads of one '#' and one '*', escaped. */
  lemma KnownFrames()
    ensures Encoded(Ascii("OK")) == Ascii("$OK#9a")
    ensures Escape(Ascii("*")) == Ascii("}\n")
    ensures Encoded(Ascii("#")) == Ascii("$}") + [3] + Ascii("#80")
  {
    PlainFrame();
    EscapedFrame();
    assert Ascii("*") == [0x2A] && Ascii("}\n") == [0x7D, 0x0A] && Escape([0x2A]) == [0x7D, 0x0A];
    assert Ascii("OK") == [0x4F, 0x4B] && Ascii("$OK#9a") == [0x24, 0x4F, 0x4B, 0x23, 0x39, 0x61];
    assert Ascii("#") == [0x23] && Ascii("$}") + [3] + Ascii("#80") == [0x24, 0x7D, 0x03, 0x23, 0x38, 0x30];
  }

  lemma PlainFrame()
    ensures Encoded([0x4F, 0x4B]) == [0x24, 0x4F, 0x4B, 0x23, 0x39, 0x61]
  {
    var ok: Text := [0x4F, 0x4B];
    assert ok[1..] == [0x4B] && ok[1..][1..] == [];
    assert Escape([0x4B]) == [0x4B];
    assert Escape(ok) == ok;
    assert [0x4F] + [0x4B] == ok;
    ChecksumAdds([0x4F], [0x4B]);
    ChecksumOne(0x4F);
    ChecksumOne(0x4B);
  }

  lemma EscapedFrame()
    ensures Encoded([0x23]) == [0x24, 0x7D, 0x03, 0x23, 0x38, 0x30]
  {
    var raw: Text := [0x7D, 0x03];
    assert Escape([0x23]) == raw;
    assert [0x7D] + [0x03] == raw;
    ChecksumAdds([0x7D], [0x03]);
    ChecksumOne(0x7D);
    ChecksumOne(0x03);
  }

  /** Ctrl-C (byte 3) between packets is an interrupt. */
  lemma CtrlC(rest: Text)
    ensures Receive([3] + rest) == Reception(Interrupt(rest), 0)
  {
    FrameStartUnique([3] + rest, 0);
    assert ([3] + rest)[1..] == rest;
  }
}
