/** The peer-to-peer wire format: length-prefixed records read from a byte stream. */
module Wire {
  import opened Text

  type Bytes = seq<byte>

  const SPACE: byte := 32
  const MAX_BODY: nat := 4 * 1024 * 1024

  datatype Message = Message(msgType: Bytes, payload: Bytes)

  // ---------------------------------------------------------------------------------------------
  // The pieces of a frame.

  /** The low `k` bytes of a number, least significant first. */
  ghost function LittleEndian(n: nat, k: nat): (b: Bytes)
    ensures |b| == k
  {
    if k == 0 then [] else [n % 256] + LittleEndian(n / 256, k - 1)
  }

  ghost function Number(b: Bytes): nat {
    if b == [] then 0
    else
      var low: int := b[0];
      low + 256 * Number(b[1..])
  }

  /** The announced length of the body. */
  ghost function Length(raw: Bytes): nat
    requires |raw| >= 4
  {
    Number(raw[..4])
  }

  function Spaces(n: nat): (s: Bytes)
    ensures |s| == n && forall i :: 0 <= i < n ==> s[i] == SPACE
  {
    seq(n, i => SPACE)
  }

  /** `resize(16, ' ')`: cut off or fill up. */
  function Fixed(t: Bytes): (f: Bytes)
    ensures |f| == 16
  {
    if |t| >= 16 then t[..16] else t + Spaces(16 - |t|)
  }

  ghost function Trimmed(t: Bytes): Bytes {
    if t != [] && t[|t| - 1] == SPACE then Trimmed(t[..|t| - 1]) else t
  }

  ghost predicate NoTrailingSpace(t: Bytes) {
    t != [] ==> t[|t| - 1] != SPACE
  }

  /** `substr(from, count)`, clipped at the end. */
  function Substr(s: Bytes, from: nat, count: nat): Bytes
    requires from <= |s|
  {
    if from + count <= |s| then s[from..from + count] else s[from..]
  }

  ghost function Framed(m: Message): Bytes {
    var body := Fixed(m.msgType) + m.payload;
    LittleEndian(Wrap32(|body|), 4) + body
  }

  /** The length arithmetic is done in 32 bits. */
  ghost function Unframed(raw: Bytes): Option<Message> {
    if |raw| < 20 || |raw| < Wrap32(4 + Length(raw)) then None
    else Some(Message(Trimmed(raw[4..20]), Substr(raw, 20, Wrap32(Length(raw) - 16))))
  }

  // ---------------------------------------------------------------------------------------------
  // Reading from a stream.

  /** What one read leaves: the record or nothing, and the bytes still to come. */
  datatype Reading = Reading(record: Option<Bytes>, rest: Bytes)

  ghost function Received(stream: Bytes): (r: Reading)
    ensures |r.rest| <= |stream| && (r.record.Some? ==> |r.rest| < |stream|)
  {
    if |stream| < 4 then Reading(None, [])
    else
      var len := Length(stream);
      if len > MAX_BODY then Reading(None, stream[4..])
      else if |stream| < 4 + len then Reading(None, [])
      else Reading(Some(stream[..4 + len]), stream[4 + len..])
  }

  /** The messages delivered before the connection is dropped; records that do not unframe are skipped. */
  ghost function Delivered(stream: Bytes): seq<Message>
    decreases |stream|
  {
    var r := Received(stream);
    if r.record.None? then []
    else match Unframed(r.record.value)
         case None => Delivered(r.rest)
         case Some(m) => [m] + Delivered(r.rest)
  }

  ghost function Stream(messages: seq<Message>): Bytes {
    if messages == [] then [] else Framed(messages[0]) + Stream(messages[1..])
  }

  // ---------------------------------------------------------------------------------------------
  // Round trips.

  ghost function Pow256(k: nat): nat {
    if k == 0 then 1 else 256 * Pow256(k - 1)
  }

  lemma {:induction false} NumberOfLittleEndian(n: nat, k: nat)
    requires n < Pow256(k)
    ensures Number(LittleEndian(n, k)) == n
  {
    if k > 0 {
      NumberOfLittleEndian(n / 256, k - 1);
      assert LittleEndian(n, k)[1..] == LittleEndian(n / 256, k - 1);
    }
  }

  lemma LengthFits(n: u32)
    ensures n < Pow256(4)
  {
    assert Pow256(2) == 65536;
  }

  lemma LowByte(low: byte, high: nat)
    ensures (low + 256 * high) % 256 == low && (low + 256 * high) / 256 == high
  {
  }

  lemma {:induction false} LittleEndianOfNumber(b: Bytes)
    ensures LittleEndian(Number(b), |b|) == b
  {
    if b != [] {
      LittleEndianOfNumber(b[1..]);
      LowByte(b[0], Number(b[1..]));
      assert b == [b[0]] + b[1..];
    }
  }

  /** The four header bytes as the code combines them. */
  lemma FourBytes(b: Bytes)
    requires |b| == 4
    ensures var b0: int, b1: int, b2: int, b3: int := b[0], b[1], b[2], b[3];
      Number(b) == b0 + 256 * b1 + 65536 * b2 + 16777216 * b3 < 0x1_0000_0000
  {
    assert b[1..][1..] == b[2..] && b[2..][1..] == b[3..] && b[3..][1..] == [];
    assert Number(b[3..]) == b[3] as int;
    assert Number(b[2..]) == (b[2] as int) + 256 * Number(b[3..]);
    assert Number(b[1..]) == (b[1] as int) + 256 * Number(b[2..]);
  }

  /** The four header bytes as the code splits them. */
  lemma FourShifts(n: u32)
    ensures LittleEndian(n, 4) == [n % 256, n / 256 % 256, n / 65536 % 256, n / 16777216 % 256]
  {
    assert n / 256 / 256 == n / 65536 && n / 65536 / 256 == n / 16777216;
    assert LittleEndian(n / 16777216, 1) == [n / 16777216 % 256];
    assert LittleEndian(n / 65536, 2) == [n / 65536 % 256] + LittleEndian(n / 16777216, 1);
    assert LittleEndian(n / 256, 3) == [n / 256 % 256] + LittleEndian(n / 65536, 2);
  }

  lemma {:induction false} TrimSpaces(t: Bytes, n: nat)
    requires NoTrailingSpace(t)
    ensures Trimmed(t + Spaces(n)) == t
  {
    var s := t + Spaces(n);
    if n > 0 {
      assert s[..|s| - 1] == t + Spaces(n - 1);
      TrimSpaces(t, n - 1);
    } else {
      assert s == t;
    }
  }

  lemma {:induction false} TrimmedShape(t: Bytes)
    ensures |Trimmed(t)| <= |t| && NoTrailingSpace(Trimmed(t))
    ensures t == Trimmed(t) + Spaces(|t| - |Trimmed(t)|)
  {
    if t != [] && t[|t| - 1] == SPACE {
      var u := t[..|t| - 1];
      TrimmedShape(u);
      assert t == u + [SPACE];
      assert Spaces(|t| - |Trimmed(t)|) == Spaces(|u| - |Trimmed(u)|) + [SPACE];
    }
  }

  /** A type survives the fixed field exactly when it fits and does not end in a space. */
  lemma TypeSurvives(t: Bytes)
    ensures Trimmed(Fixed(t)) == t <==> |t| <= 16 && NoTrailingSpace(t)
  {
    TrimmedShape(Fixed(t));
    if |t| <= 16 && NoTrailingSpace(t) {
      TrimSpaces(t, 16 - |t|);
      assert Fixed(t) == t + Spaces(16 - |t|);
    }
  }

  lemma HeaderAndBody(header: Bytes, fixed: Bytes, payload: Bytes)
    requires |header| == 4 && |fixed| == 16
    ensures var raw := header + (fixed + payload);
      && |raw| == 20 + |payload| && raw[..4] == header
      && raw[4..20] == fixed && raw[20..] == payload
  {
  }

  lemma FramedShape(m: Message)
    requires 16 + |m.payload| < U32
    ensures |Framed(m)| == 20 + |m.payload| && Length(Framed(m)) == 16 + |m.payload|
    ensures Framed(m)[4..20] == Fixed(m.msgType) && Framed(m)[20..] == m.payload
  {
    var n := 16 + |m.payload|;
    LengthFits(n);
    NumberOfLittleEndian(n, 4);
    HeaderAndBody(LittleEndian(n, 4), Fixed(m.msgType), m.payload);
  }

  /** A record of exactly its announced length unframes to its trimmed type field and everything after it. */
  lemma UnframedExact(raw: Bytes)
    requires |raw| >= 20 && |raw| == 4 + Length(raw)
    ensures Unframed(raw) == Some(Message(Trimmed(raw[4..20]), raw[20..]))
  {
    FourBytes(raw[..4]);
    assert Substr(raw, 20, |raw| - 20) == raw[20..];
  }

  /** What unframing a frame yields. */
  lemma UnframeFramed(m: Message)
    requires 16 + |m.payload| < U32
    ensures Unframed(Framed(m)) == Some(Message(Trimmed(Fixed(m.msgType)), m.payload))
    ensures |Framed(m)| == 20 + |m.payload| && Length(Framed(m)) == 16 + |m.payload|
  {
    FramedShape(m);
    UnframedExact(Framed(m));
  }

  ghost predicate Sendable(m: Message) {
    && |m.msgType| <= 16 && (m.msgType != [] ==> m.msgType[|m.msgType| - 1] != 32)
    && 16 + |m.payload| <= 4_194_304
  }

  lemma ReceivedFrame(m: Message, rest: Bytes)
    requires 16 + |m.payload| < U32
    ensures Received(Framed(m) + rest) ==
            if 16 + |m.payload| <= MAX_BODY then Reading(Some(Framed(m)), rest)
            else Reading(None, (Framed(m) + rest)[4..])
  {
    UnframeFramed(m);
    var s := Framed(m) + rest;
    assert s[..4] == Framed(m)[..4];
    assert Length(s) == Length(Framed(m));
    assert s[..|Framed(m)|] == Framed(m) && s[|Framed(m)|..] == rest;
  }

  /** Everything sendable arrives, in order, and nothing else does. */
  lemma {:induction false} StreamRoundTrip(messages: seq<Message>)
    requires forall m :: m in messages ==> Sendable(m)
    ensures Delivered(Stream(messages)) == messages
  {
    if messages != [] {
      var m := messages[0];
      assert m in messages;
      ReceivedFrame(m, Stream(messages[1..]));
      UnframeFramed(m);
      TypeSurvives(m.msgType);
      assert messages == [m] + messages[1..];
      StreamRoundTrip(messages[1..]);
    }
  }

  /** Whatever the bytes, only sendable messages are ever delivered. */
  lemma {:induction false} DeliveredIsSendable(stream: Bytes)
    ensures forall m :: m in Delivered(stream) ==> Sendable(m)
    decreases |stream|
  {
    var r := Received(stream);
    if r.record.Some? {
      DeliveredIsSendable(r.rest);
      var raw := r.record.value;
      assert |raw| <= 4 + MAX_BODY;
      if Unframed(raw).Some? {
        TrimmedShape(raw[4..20]);
        assert Sendable(Unframed(raw).value);
      }
    }
  }

  /** A list of messages arrives unchanged if and only if every one of them is sendable. */
  lemma ArrivesExactly(messages: seq<Message>)
    ensures Delivered(Stream(messages)) == messages <==> forall m :: m in messages ==> Sendable(m)
  {
    DeliveredIsSendable(Stream(messages));
    if forall m :: m in messages ==> Sendable(m) {
      StreamRoundTrip(messages);
    }
  }

  /** A type of more than 16 characters is cut off, and trailing spaces are lost with it. */
  lemma LongTypeIsCut(m: Message)
    requires |m.msgType| >= 16 && 16 + |m.payload| < U32
    ensures Unframed(Framed(m)) == Some(Message(Trimmed(m.msgType[..16]), m.payload))
  {
    UnframeFramed(m);
  }

  /** On the wire: four bytes of length, the lowest first, the type filled up with spaces, and the payload. */
  lemma FrameBytes(m: Message)
    requires |m.msgType| <= 16 && 16 + |m.payload| < 0x1_0000_0000
    ensures |Framed(m)| == 20 + |m.payload|
    ensures var f := Framed(m);
      var b0: int, b1: int, b2: int, b3: int := f[0], f[1], f[2], f[3];
      && b0 + 256 * b1 + 65536 * b2 + 16777216 * b3 == 16 + |m.payload|
      && (forall i :: 0 <= i < 16 ==> f[4 + i] == if i < |m.msgType| then m.msgType[i] else 32)
      && f[20..] == m.payload
  {
    var f, n := Framed(m), 16 + |m.payload|;
    assert |Fixed(m.msgType)| == 16 && f == LittleEndian(n, 4) + (Fixed(m.msgType) + m.payload);
    assert f[..4] == LittleEndian(n, 4) && f[4..20] == Fixed(m.msgType);
    NumberOfLittleEndian(n, 4);
    FourBytes(f[..4]);
    forall i | 0 <= i < 16 ensures f[4 + i] == if i < |m.msgType| then m.msgType[i] else 32 {
      assert f[4 + i] == f[4..20][i];
    }
  }

  /** Bytes beyond the announced length are not part of the payload. */
  lemma PayloadIsAnnounced(raw: Bytes)
    requires |raw| >= 20 && 16 <= Length(raw) && 4 + Length(raw) <= |raw|
    ensures Unframed(raw) == Some(Message(Trimmed(raw[4..20]), raw[20..4 + Length(raw)]))
  {
    FourBytes(raw[..4]);
  }

  /** Framing undoes unframing on every record of exactly its announced length of at least 16. */
  lemma FrameUnframed(raw: Bytes)
    requires |raw| >= 4 && |raw| == 4 + Length(raw) && Length(raw) >= 16
    ensures Unframed(raw).Some? && Framed(Unframed(raw).value) == raw
  {
    UnframedExact(raw);
    FixedTrimmed(raw[4..20]);
    LittleEndianOfNumber(raw[..4]);
    FourBytes(raw[..4]);
    assert raw[4..] == raw[4..20] + raw[20..];
    assert |raw[4..]| == Length(raw);
    assert raw == raw[..4] + raw[4..];
  }

  lemma FixedTrimmed(t: Bytes)
    requires |t| == 16
    ensures Fixed(Trimmed(t)) == t
  {
    TrimmedShape(t);
  }

  // ---------------------------------------------------------------------------------------------
  // The code.

  /** `raw[0] | raw[1] << 8 | raw[2] << 16 | raw[3] << 24` */
  method ReadLength(raw: Bytes) returns (len: u32)
    requires |raw| >= 4
    ensures len == Length(raw)
  {
    FourBytes(raw[..4]);
    var b0: int, b1: int, b2: int, b3: int := raw[0], raw[1], raw[2], raw[3];
    len := b0 + 256 * b1 + 65536 * b2 + 16777216 * b3;
  }

  method Frame(msgType: Bytes, payload: Bytes) returns (result: Bytes)
    ensures result == Framed(Message(msgType, payload))
  {
    var typeFixed := Fixed(msgType);
    var body := typeFixed + payload;
    var len: u32 := Wrap32(|body|);
    FourShifts(len);
    result := Spaces(4);
    result := result[0 := len % 256];
    result := result[1 := len / 256 % 256];
    result := result[2 := len / 65536 % 256];
    result := result[3 := len / 16777216 % 256];
    assert result == LittleEndian(len, 4);
    result := result + body;
  }

  /** The output parameters keep their old values on failure. */
  method Unframe(raw: Bytes, type0: Bytes, payload0: Bytes) returns (ok: bool, msgType: Bytes, payload: Bytes)
    ensures match Unframed(raw)
            case None => !ok && (msgType, payload) == (type0, payload0)
            case Some(m) => ok && (msgType, payload) == (m.msgType, m.payload)
  {
    ok, msgType, payload := false, type0, payload0;
    if |raw| < 20 {
      return;
    }
    var len := ReadLength(raw);
    if |raw| < Wrap32(4 + (len as int)) {
      return;
    }
    msgType := raw[4..20];
    while msgType != [] && msgType[|msgType| - 1] == SPACE
      invariant Trimmed(msgType) == Trimmed(raw[4..20])
      decreases |msgType|
    {
      msgType := msgType[..|msgType| - 1];
    }
    payload := Substr(raw, 20, Wrap32((len as int) - 16));
    ok := true;
  }

  /** What has been delivered together with what is still to come, before and after one read. */
  lemma DeliveredStep(done: seq<Message>, s: Bytes)
    ensures var r := Received(s);
      done + Delivered(s) ==
      match r.record
      case None => done
      case Some(raw) =>
        match Unframed(raw)
        case None => done + Delivered(r.rest)
        case Some(m) => done + [m] + Delivered(r.rest)
  {
  }

  /** A connected socket; `incoming` is everything the peer will still send before closing. */
  class Socket {
    var incoming: Bytes

    constructor (bytes: Bytes)
      ensures incoming == bytes
    {
      incoming := bytes;
    }

    /** `recv` with `MSG_WAITALL`: as many bytes as asked for, or all that are left. */
    method Recv(n: nat) returns (bytes: Bytes)
      modifies this
      ensures old(incoming) == bytes + incoming
      ensures |bytes| == if n <= |old(incoming)| then n else |old(incoming)|
    {
      var k := if n <= |incoming| then n else |incoming|;
      bytes := incoming[..k];
      incoming := incoming[k..];
    }

    /** The empty string reports a failure. */
    method RecvRaw() returns (raw: Bytes)
      modifies this
      ensures incoming == Received(old(incoming)).rest
      ensures match Received(old(incoming)).record
              case None => raw == []
              case Some(r) => raw == r
    {
      ghost var s := incoming;
      var hdr := Recv(4);
      if |hdr| != 4 {
        return [];
      }
      assert hdr == s[..4] && incoming == s[4..];
      assert hdr[..4] == s[..4];
      var len := ReadLength(hdr);
      if len > MAX_BODY {
        return [];
      }
      var body := Recv(len);
      if |body| != len {
        return [];
      }
      assert s[4..] == body + incoming;
      assert s == hdr + body + incoming;
      raw := hdr + body;
    }

    /** The receiving loop of `handlePeer`. */
    method HandlePeer() returns (delivered: seq<Message>)
      modifies this
      ensures delivered == Delivered(old(incoming))
    {
      delivered := [];
      while true
        invariant delivered + Delivered(incoming) == Delivered(old(incoming))
        decreases |incoming|
      {
        DeliveredStep(delivered, incoming);
        var raw := RecvRaw();
        if raw == [] {
          return;
        }
        var ok, msgType, payload := Unframe(raw, [], []);
        if ok {
          delivered := delivered + [Message(msgType, payload)];
        }
      }
    }
  }
}
