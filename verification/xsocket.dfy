/**
 * The message framing and byte obfuscation of the socket client
 * (Sources/Dependencies/Networking/XSocket.h). A frame is a 3-byte header,
 * the key and the 16-bit little-endian total length, followed by the body,
 * which is obfuscated with the key unless the key is 0.
 *
 * The socket calls themselves are left out: `Send` returns the bytes it
 * would hand to the operating system, and `Receive` reads frames from the
 * bytes the peer delivered, in order, until the stream runs out.
 */
module XSocket {
  import opened Wrappers
  import Arith

  /** The largest payload `Send` accepts. */
  const MAX_PAYLOAD: nat := 65535
  const HEADER_SIZE: nat := 3
  const U16_LIMIT: nat := 0x1_0000

  /**
   * The low 8 bits of an unsigned integer, as a cast to `uint8_t` keeps
   * them: counting n up from 0 in a byte, which wraps after 255.
   */
  function Low8(n: nat): bv8
  {
    if n == 0 then 0 else Low8(n - 1) + 1
  }

  /** `Low8` is the remainder modulo 256. */
  lemma {:induction false} Low8Value(n: nat)
    ensures Low8(n) as nat == n % 256
  {
    if n > 0 {
      var prev := Low8(n - 1);
      assert Low8(n) == prev + 1;
      Low8Value(n - 1);
      ByteIncrement(prev);
      ModSucc(n - 1);
    }
  }

  /** Taking the remainder before adding one changes nothing modulo 256. */
  lemma ModSucc(k: nat)
    ensures (k % 256 + 1) % 256 == (k + 1) % 256
  {
    var q, r := k / 256, k % 256;
    if r < 255 {
      Arith.ModUnique(k + 1, q, r + 1, 256);
    } else {
      Arith.ModUnique(k + 1, q + 1, 0, 256);
    }
  }

  /** Adding one to a byte adds one to its value, modulo 256. */
  lemma ByteIncrement(b: bv8)
    ensures (b + 1) as nat == (b as nat + 1) % 256
  {
  }

  /** `(uint8_t)(i ^ key)`: the amount added to body byte i. */
  function AddMask(key: bv8, i: nat): bv8
  {
    Low8(i) ^ key
  }

  /** `(uint8_t)(key ^ (size - i))`: the mask XORed into body byte i. */
  function XorMask(key: bv8, size: nat, i: nat): bv8
    requires i <= size
  {
    key ^ Low8(size - i)
  }

  /** The sender's transformation of body byte i: add, then XOR (XSocket.h:80-84). */
  function ObfuscateByte(b: bv8, key: bv8, size: nat, i: nat): bv8
    requires i <= size
  {
    (b + AddMask(key, i)) ^ XorMask(key, size, i)
  }

  /** The receiver's transformation of body byte i: XOR, then subtract (XSocket.h:126-130). */
  function DeobfuscateByte(b: bv8, key: bv8, size: nat, i: nat): bv8
    requires i <= size
  {
    (b ^ XorMask(key, size, i)) - AddMask(key, i)
  }

  /** The body as the sender puts it on the wire. Key 0 sends the body as it is. */
  function Obfuscated(body: seq<bv8>, key: bv8): seq<bv8>
  {
    if key == 0 then body
    else seq(|body|, i requires 0 <= i < |body| => ObfuscateByte(body[i], key, |body|, i))
  }

  /** The body as the receiver restores it. Key 0 takes the body as it is. */
  function Deobfuscated(body: seq<bv8>, key: bv8): seq<bv8>
  {
    if key == 0 then body
    else seq(|body|, i requires 0 <= i < |body| => DeobfuscateByte(body[i], key, |body|, i))
  }

  /** The `uint16_t` total length the header carries: size + 3, truncated to 16 bits. */
  function TotalField(size: nat): nat
  {
    (size + HEADER_SIZE) % U16_LIMIT
  }

  /** The 3-byte header `Send` writes for a payload of `size` bytes under `key`. */
  function Header(size: nat, key: bv8): seq<bv8>
  {
    var total := TotalField(size);
    [key, Low8(total), Low8(total / 256)]
  }

  /** The bytes `Send` writes for `data` under `key`. */
  function Frame(data: seq<bv8>, key: bv8): seq<bv8>
  {
    Header(|data|, key) + Obfuscated(data, key)
  }

  /**
   * `Send` over a connected or unconnected socket: it refuses when the
   * socket is not running or the payload exceeds 65535 bytes, and otherwise
   * builds the frame byte by byte and obfuscates the body in place.
   */
  method Send(data: seq<bv8>, key: bv8, running: bool) returns (frame: Option<seq<bv8>>)
    ensures frame.None? <==> !running || |data| > MAX_PAYLOAD
    ensures frame.Some? ==> frame.value == Frame(data, key)
  {
    if !running {
      return None;
    }
    if |data| > MAX_PAYLOAD {
      return None;
    }
    var size := |data|;
    var buf := new bv8[size + HEADER_SIZE];
    buf[0] := key;
    var total := (size + HEADER_SIZE) % U16_LIMIT;
    buf[1] := Low8(total);
    buf[2] := Low8(total / 256);
    var i := 0;
    while i < size
      invariant 0 <= i <= size
      invariant buf[0] == key && buf[1] == Low8(total) && buf[2] == Low8(total / 256)
      invariant forall j | 0 <= j < i :: buf[HEADER_SIZE + j] == data[j]
    {
      buf[HEADER_SIZE + i] := data[i];
      i := i + 1;
    }
    assert buf[..HEADER_SIZE] == Header(size, key);
    assert buf[HEADER_SIZE..] == data;
    if key != 0 {
      ObfuscateInPlace(buf, key);
    }
    assert buf[..] == buf[..HEADER_SIZE] + buf[HEADER_SIZE..];
    frame := Some(buf[..]);
  }

  /** The obfuscation loop of `Send` (XSocket.h:78-85), over the body that follows the header in `buf`. */
  method ObfuscateInPlace(buf: array<bv8>, key: bv8)
    requires buf.Length >= HEADER_SIZE && key != 0
    modifies buf
    ensures buf[..HEADER_SIZE] == old(buf[..HEADER_SIZE])
    ensures buf[HEADER_SIZE..] == Obfuscated(old(buf[HEADER_SIZE..]), key)
  {
    ghost var body := buf[HEADER_SIZE..];
    var size := buf.Length - HEADER_SIZE;
    var i := 0;
    while i < size
      invariant 0 <= i <= size
      invariant forall j | 0 <= j < HEADER_SIZE :: buf[j] == old(buf[j])
      invariant forall j | 0 <= j < i :: buf[HEADER_SIZE + j] == ObfuscateByte(body[j], key, size, j)
      invariant forall j | i <= j < size :: buf[HEADER_SIZE + j] == body[j]
    {
      ObfuscateAt(buf, key, size, i);
      i := i + 1;
    }
    assert buf[HEADER_SIZE..] == Obfuscated(body, key);
  }

  /** One pass of the obfuscation loop: body byte i gets the mask added, then the other mask XORed in. */
  method ObfuscateAt(buf: array<bv8>, key: bv8, size: nat, i: nat)
    requires i < size && buf.Length == HEADER_SIZE + size
    modifies buf
    ensures buf[HEADER_SIZE + i] == ObfuscateByte(old(buf[HEADER_SIZE + i]), key, size, i)
    ensures forall j | 0 <= j < buf.Length && j != HEADER_SIZE + i :: buf[j] == old(buf[j])
  {
    buf[HEADER_SIZE + i] := buf[HEADER_SIZE + i] + AddMask(key, i);
    buf[HEADER_SIZE + i] := buf[HEADER_SIZE + i] ^ XorMask(key, size, i);
  }

  /** The restoring loop of `ThreadLoop` (XSocket.h:122-132), over a received body. */
  method DeobfuscateInPlace(body: array<bv8>, key: bv8)
    requires key != 0
    modifies body
    ensures body[..] == Deobfuscated(old(body[..]), key)
  {
    ghost var received := body[..];
    var bodySize := body.Length;
    var i := 0;
    while i < bodySize
      invariant 0 <= i <= bodySize
      invariant forall j | 0 <= j < i :: body[j] == DeobfuscateByte(received[j], key, bodySize, j)
      invariant forall j | i <= j < bodySize :: body[j] == received[j]
    {
      DeobfuscateAt(body, key, i);
      i := i + 1;
    }
    assert body[..] == Deobfuscated(received, key);
  }

  /** One pass of the restoring loop: body byte i gets the mask XORed out, then the other mask subtracted. */
  method DeobfuscateAt(body: array<bv8>, key: bv8, i: nat)
    requires i < body.Length
    modifies body
    ensures body[i] == DeobfuscateByte(old(body[i]), key, body.Length, i)
    ensures forall j | 0 <= j < body.Length && j != i :: body[j] == old(body[j])
  {
    body[i] := body[i] ^ XorMask(key, body.Length, i);
    body[i] := body[i] - AddMask(key, i);
  }

  /** The body size the receiver derives from a header: `(uint16_t)(total - 3)` (XSocket.h:117-119). */
  function BodySize(h1: bv8, h2: bv8): nat
  {
    var total := h1 as nat + 256 * h2 as nat;
    (total - HEADER_SIZE) % U16_LIMIT
  }

  /**
   * The messages `ThreadLoop` delivers for the bytes `stream`, in order:
   * it stops at the first header or body the stream cannot complete.
   */
  function Decoded(stream: seq<bv8>): seq<seq<bv8>>
    decreases |stream|
  {
    if |stream| < HEADER_SIZE then []
    else
      var size := BodySize(stream[1], stream[2]);
      if HEADER_SIZE + size > |stream| then []
      else [Deobfuscated(stream[HEADER_SIZE..HEADER_SIZE + size], stream[0])] + Decoded(stream[HEADER_SIZE + size..])
  }

  /** `ThreadLoop`: reads frames from the stream and restores each body in place. */
  method Receive(stream: seq<bv8>) returns (messages: seq<seq<bv8>>)
    ensures messages == Decoded(stream)
  {
    messages := [];
    var pos := 0;
    assert stream[pos..] == stream;
    while pos + HEADER_SIZE <= |stream|
      invariant pos <= |stream|
      invariant Decoded(stream) == messages + Decoded(stream[pos..])
      decreases |stream| - pos
    {
      var body, next, complete := ReceiveFrame(stream, pos, messages);
      if !complete {
        break;
      }
      messages := messages + [body];
      pos := next;
    }
    if pos + HEADER_SIZE > |stream| {
      DecodedStops(stream, pos);
    }
    assert messages + [] == messages;
  }

  /**
   * One pass of the `ThreadLoop` loop at byte pos: the header read, then,
   * if the body is complete, the body restored and the position after it.
   */
  method ReceiveFrame(stream: seq<bv8>, pos: nat, ghost done: seq<seq<bv8>>) returns (body: seq<bv8>, next: nat, complete: bool)
    requires pos + HEADER_SIZE <= |stream|
    ensures complete ==> pos < next <= |stream|
    ensures complete ==> done + Decoded(stream[pos..]) == (done + [body]) + Decoded(stream[next..])
    ensures !complete ==> Decoded(stream[pos..]) == []
  {
    var bodySize := BodySize(stream[pos + 1], stream[pos + 2]);
    if pos + HEADER_SIZE + bodySize > |stream| {
      DecodedStops(stream, pos);
      return [], pos, false;
    }
    body := ReadFrame(stream, pos, bodySize, done);
    next := pos + HEADER_SIZE + bodySize;
    complete := true;
  }

  /** The body of a complete frame at pos, restored; it is the next message decoding delivers. */
  method ReadFrame(stream: seq<bv8>, pos: nat, bodySize: nat, ghost done: seq<seq<bv8>>) returns (body: seq<bv8>)
    requires pos + HEADER_SIZE <= |stream| && bodySize == BodySize(stream[pos + 1], stream[pos + 2])
    requires pos + HEADER_SIZE + bodySize <= |stream|
    ensures done + Decoded(stream[pos..]) == (done + [body]) + Decoded(stream[pos + HEADER_SIZE + bodySize..])
  {
    body := ReadBody(stream, pos, bodySize);
    DecodedStep(stream, pos, bodySize, body, done);
  }

  /** Decoding from pos yields nothing when no complete frame starts there. */
  lemma DecodedStops(stream: seq<bv8>, pos: nat)
    requires pos <= |stream|
    requires pos + HEADER_SIZE > |stream| || pos + HEADER_SIZE + BodySize(stream[pos + 1], stream[pos + 2]) > |stream|
    ensures Decoded(stream[pos..]) == []
  {
    var rest := stream[pos..];
    if pos + HEADER_SIZE <= |stream| {
      assert rest[1] == stream[pos + 1] && rest[2] == stream[pos + 2];
    }
  }

  /**
   * A complete frame at pos contributes its restored body, then decoding
   * goes on after it: appending the body to the messages so far keeps what
   * remains to be delivered.
   */
  lemma DecodedStep(stream: seq<bv8>, pos: nat, size: nat, body: seq<bv8>, done: seq<seq<bv8>>)
    requires pos + HEADER_SIZE <= |stream| && size == BodySize(stream[pos + 1], stream[pos + 2])
    requires pos + HEADER_SIZE + size <= |stream|
    requires body == Deobfuscated(stream[pos + HEADER_SIZE..pos + HEADER_SIZE + size], stream[pos])
    ensures done + Decoded(stream[pos..]) == (done + [body]) + Decoded(stream[pos + HEADER_SIZE + size..])
  {
    var rest := stream[pos..];
    assert BodySize(rest[1], rest[2]) == size by {
      assert rest[1] == stream[pos + 1] && rest[2] == stream[pos + 2];
    }
    assert Decoded(rest) == [body] + Decoded(stream[pos + HEADER_SIZE + size..]) by {
      assert rest[0] == stream[pos];
      assert rest[HEADER_SIZE..HEADER_SIZE + size] == stream[pos + HEADER_SIZE..pos + HEADER_SIZE + size];
      assert rest[HEADER_SIZE + size..] == stream[pos + HEADER_SIZE + size..];
    }
  }

  /** One frame of `ThreadLoop` (XSocket.h:117-132): the body is copied out of the stream and restored in place. */
  method ReadBody(stream: seq<bv8>, pos: nat, bodySize: nat) returns (msg: seq<bv8>)
    requires pos + HEADER_SIZE + bodySize <= |stream|
    ensures msg == Deobfuscated(stream[pos + HEADER_SIZE..pos + HEADER_SIZE + bodySize], stream[pos])
  {
    var key := stream[pos];
    var body := new bv8[bodySize];
    var k := 0;
    while k < bodySize
      invariant 0 <= k <= bodySize
      invariant forall j | 0 <= j < k :: body[j] == stream[pos + HEADER_SIZE + j]
    {
      body[k] := stream[pos + HEADER_SIZE + k];
      k := k + 1;
    }
    assert body[..] == stream[pos + HEADER_SIZE..pos + HEADER_SIZE + bodySize];
    if key != 0 {
      DeobfuscateInPlace(body, key);
    }
    msg := body[..];
  }

  // ---------------------------------------------------------------------
  // Properties
  // ---------------------------------------------------------------------

  /** The receiver undoes the sender's transformation of each byte. */
  lemma ByteRoundTrip(b: bv8, key: bv8, size: nat, i: nat)
    requires i <= size
    ensures DeobfuscateByte(ObfuscateByte(b, key, size, i), key, size, i) == b
  {
    MaskRoundTrip(b, AddMask(key, i), XorMask(key, size, i));
  }

  /** XOR-ing a mask twice and subtracting what was added gives the byte back, whatever the masks. */
  lemma MaskRoundTrip(b: bv8, add: bv8, xor: bv8)
    ensures (((b + add) ^ xor) ^ xor) - add == b
  {
  }

  /** Restoring an obfuscated body with the same key gives the body back, for every key. */
  lemma {:induction false} BodyRoundTrip(body: seq<bv8>, key: bv8)
    ensures Deobfuscated(Obfuscated(body, key), key) == body
  {
    if key != 0 {
      forall i | 0 <= i < |body|
        ensures Deobfuscated(Obfuscated(body, key), key)[i] == body[i]
      {
        ByteRoundTrip(body[i], key, |body|, i);
      }
    }
  }

  /**
   * Header byte 0 is the key and bytes 1-2 hold size + 3 truncated to 16 bits,
   * little-endian; with key 0 the body is sent unchanged.
   */
  lemma FrameLayout(data: seq<bv8>, key: bv8)
    ensures |Frame(data, key)| == |data| + HEADER_SIZE
    ensures Frame(data, key)[0] == key
    ensures Frame(data, key)[1] as nat + 256 * Frame(data, key)[2] as nat == (|data| + 3) % U16_LIMIT
    ensures key == 0 ==> Frame(data, key)[HEADER_SIZE..] == data
  {
    var frame := Frame(data, key);
    var header := Header(|data|, key);
    assert frame[0] == header[0] && frame[1] == header[1] && frame[2] == header[2];
    HeaderTotal(|data|, key);
  }

  /**
   * The receiver recovers the payload size from the header although the
   * total wraps around for payloads of 65533 bytes and more.
   */
  lemma SizeRecovered(size: nat, key: bv8)
    requires size <= MAX_PAYLOAD
    ensures BodySize(Header(size, key)[1], Header(size, key)[2]) == size
  {
    HeaderTotal(size, key);
    WrappedTotal(size);
  }

  /** The two length bytes of a header hold the 16-bit total. */
  lemma HeaderTotal(size: nat, key: bv8)
    ensures Header(size, key)[1] as nat + 256 * Header(size, key)[2] as nat == TotalField(size)
  {
    var total := TotalField(size);
    var lo, hi := total % 256, total / 256;
    Low8Value(total);
    Low8Value(hi);
    assert hi < 256;
    assert Header(size, key)[1] as nat == lo && Header(size, key)[2] as nat == hi;
    assert total == 256 * hi + lo;
  }

  lemma WrappedTotal(size: nat)
    requires size <= MAX_PAYLOAD
    ensures (TotalField(size) - HEADER_SIZE) % U16_LIMIT == size
  {
    if size + HEADER_SIZE >= U16_LIMIT {
      assert TotalField(size) == size + HEADER_SIZE - U16_LIMIT;
    }
  }

  /** One frame followed by anything decodes to its payload, then whatever follows decodes. */
  lemma FrameRoundTrip(data: seq<bv8>, key: bv8, rest: seq<bv8>)
    requires |data| <= MAX_PAYLOAD
    ensures Decoded(Frame(data, key) + rest) == [data] + Decoded(rest)
  {
    var stream := Frame(data, key) + rest;
    SizeRecovered(|data|, key);
    assert stream[1] == Header(|data|, key)[1] && stream[2] == Header(|data|, key)[2];
    assert stream[HEADER_SIZE..HEADER_SIZE + |data|] == Obfuscated(data, key);
    assert stream[HEADER_SIZE + |data|..] == rest;
    BodyRoundTrip(data, key);
  }

  /** A payload and the key it is sent under. */
  datatype Message = Message(payload: seq<bv8>, key: bv8)

  /** The bytes of several `Send` calls in a row. */
  function Frames(msgs: seq<Message>): seq<bv8>
  {
    if |msgs| == 0 then [] else Frame(msgs[0].payload, msgs[0].key) + Frames(msgs[1..])
  }

  function Payloads(msgs: seq<Message>): (r: seq<seq<bv8>>)
    ensures |r| == |msgs|
    ensures forall i | 0 <= i < |msgs| :: r[i] == msgs[i].payload
  {
    seq(|msgs|, i requires 0 <= i < |msgs| => msgs[i].payload)
  }

  /** Receiving the bytes of any sequence of sends delivers exactly their payloads, in order. */
  lemma {:induction false} StreamRoundTrip(msgs: seq<Message>)
    requires forall i | 0 <= i < |msgs| :: |msgs[i].payload| <= MAX_PAYLOAD
    ensures Decoded(Frames(msgs)) == Payloads(msgs)
    decreases |msgs|
  {
    if |msgs| > 0 {
      FrameRoundTrip(msgs[0].payload, msgs[0].key, Frames(msgs[1..]));
      StreamRoundTrip(msgs[1..]);
      assert Payloads(msgs) == [msgs[0].payload] + Payloads(msgs[1..]);
    }
  }
}
