/**
 * Byte-level layer of the connection protocol in lib/server.py: the fixed
 * handshake constants, the 4-byte big-endian length word read by
 * `general.unpack_int`, and the cut of one length-prefixed frame off the
 * front of the receive buffer.
 *
 * Python 2 `str` values are byte strings; they are modelled as `Bytes`.
 */
module Wire {
  import opened Wrappers

  newtype byte = x: int | 0 <= x < 256

  type Bytes = seq<byte>

  /** One more than the largest value a 4-byte unsigned word holds. */
  const WORD: nat := 0x1_0000_0000

  function Zeros(n: nat): Bytes
  {
    seq(n, _ => 0 as byte)
  }

  /** `KEY_HEAD`: a zero word, then the generator "1" as a length-prefixed field. */
  const KEY_HEAD: Bytes := [0x00, 0x00, 0x00, 0x00, 0x00, 0x00, 0x00, 0x01, 0x31]
  /** `KEY_PRIME`: length 0x100 followed by 0x100 zero bytes. */
  const KEY_PRIME: Bytes := [0x00, 0x00, 0x01, 0x00] + Zeros(0x100)
  /** `KEY_PUBLIC`: length 0x100 followed by 0x100 zero bytes. */
  const KEY_PUBLIC: Bytes := [0x00, 0x00, 0x01, 0x00] + Zeros(0x100)
  /** `PACKET_INIT`: the 8-byte marker a client opens the connection with. */
  const PACKET_INIT: Bytes := [0x00, 0x00, 0x00, 0x00, 0x00, 0x00, 0x00, 0x10]
  /** `PACKET_KEY`: the client's public key, a length-1 field holding "0". */
  const PACKET_KEY: Bytes := [0x00, 0x00, 0x00, 0x01, 0x30]

  /** The key-exchange reply `KEY_HEAD+KEY_PRIME+KEY_PUBLIC`. */
  const KEY_REPLY: Bytes := KEY_HEAD + KEY_PRIME + KEY_PUBLIC

  /** The value of a 4-byte big-endian unsigned word. */
  function BigEndian(b: Bytes): nat
    requires |b| == 4
  {
    (b[0] as nat) * 0x100_0000 + (b[1] as nat) * 0x1_0000 + (b[2] as nat) * 0x100 + (b[3] as nat)
  }

  /**
   * `general.unpack_int`, assumed to decode exactly four bytes as a
   * big-endian unsigned word and to raise (None) on any other length.
   */
  function UnpackInt(s: Bytes): (r: Option<nat>)
    ensures r.Some? <==> |s| == 4
    ensures r.Some? ==> r.value < WORD
  {
    if |s| == 4 then Some(BigEndian(s)) else None
  }

  /** The 4-byte big-endian encoding of `n`: the inverse of `UnpackInt`. */
  function PackInt(n: nat): (b: Bytes)
    requires n < WORD
    ensures |b| == 4
  {
    [(n / 0x100_0000) as byte, (n / 0x1_0000 % 0x100) as byte,
     (n / 0x100 % 0x100) as byte, (n % 0x100) as byte]
  }

  lemma UnpackPack(n: nat)
    requires n < WORD
    ensures UnpackInt(PackInt(n)) == Some(n)
  {
    var b := PackInt(n);
    assert n == (n / 0x100) * 0x100 + n % 0x100;
    assert n / 0x100 == (n / 0x1_0000) * 0x100 + n / 0x100 % 0x100;
    assert n / 0x1_0000 == (n / 0x100_0000) * 0x100 + n / 0x1_0000 % 0x100;
  }

  lemma PackUnpack(b: Bytes)
    requires |b| == 4
    ensures BigEndian(b) < WORD
    ensures PackInt(BigEndian(b)) == b
  {
    var n := BigEndian(b);
    var hi := (b[0] as nat) * 0x100 + (b[1] as nat);
    var mid := hi * 0x100 + (b[2] as nat);
    assert n == mid * 0x100 + (b[3] as nat);
    ShiftByte(mid, b[3] as nat);
    ShiftByte(hi, b[2] as nat);
    ShiftByte(b[0] as nat, b[1] as nat);
    DivByteTwice(n);
    DivByteTwice(n / 0x100);
  }

  /** Appending a low byte `r` to `q` shifts it by one byte position. */
  lemma ShiftByte(q: nat, r: nat)
    requires r < 0x100
    ensures (q * 0x100 + r) / 0x100 == q && (q * 0x100 + r) % 0x100 == r
  {
  }

  lemma DivByteTwice(n: nat)
    ensures n / 0x1_0000 == n / 0x100 / 0x100
    ensures n / 0x100_0000 == n / 0x1_0000 / 0x100
  {
  }

  /** A length-prefixed field: the 4-byte length of `p`, then `p`. */
  function Field(p: Bytes): (f: Bytes)
    requires |p| < WORD
    ensures |f| == 4 + |p| && f[4..] == p
    ensures UnpackInt(f[..4]) == Some(|p|)
  {
    UnpackPack(|p|);
    assert (PackInt(|p|) + p)[..4] == PackInt(|p|);
    PackInt(|p|) + p
  }

  /**
   * The handshake constants are the hand-assembled length-prefixed fields
   * they stand for, and the reply is 529 bytes long.
   */
  lemma ConstantLayout()
    ensures KEY_HEAD == [0, 0, 0, 0] + Field([0x31])
    ensures KEY_PRIME == Field(Zeros(0x100)) && KEY_PUBLIC == Field(Zeros(0x100))
    ensures |KEY_REPLY| == 529
    ensures PACKET_KEY == Field([0x30])
    ensures |PACKET_INIT| == 8
  {
  }

  /** `buf[:4]`: Python's slice keeps at most the first four bytes. */
  function Head(buf: Bytes): (h: Bytes)
    ensures |h| <= 4 && h <= buf
    ensures |h| == 4 <==> |buf| >= 4
    ensures |buf| < 4 ==> h == buf
  {
    buf[..if |buf| < 4 then |buf| else 4]
  }

  /** The three outcomes of cutting one frame off the front of a buffer. */
  datatype Split =
    | Short                              // unpack_int raises: fewer than four bytes
    | Incomplete(length: nat)            // the declared frame is longer than the buffer
    | Complete(frame: Bytes, rest: Bytes)

  /**
   * The established-phase framing: a frame is the 4-byte length word plus
   * 8 more bytes than that length declares.
   */
  function SplitFrame(buf: Bytes): Split
  {
    match UnpackInt(Head(buf))
    case None => Short
    case Some(len) =>
      var n := len + 8;
      if n <= |buf| then Complete(buf[..n], buf[n..]) else Incomplete(n)
  }

  /** An encrypted frame: the payload length, a 4-byte sub-header, the payload. */
  function EncodeFrame(tag: Bytes, body: Bytes): (f: Bytes)
    requires |tag| == 4 && |body| < WORD
    ensures |f| == |body| + 8
  {
    PackInt(|body|) + tag + body
  }

  /** A buffer fails to give up a frame header exactly when it holds fewer than four bytes. */
  lemma SplitFrameShort(buf: Bytes)
    ensures SplitFrame(buf).Short? <==> |buf| < 4
  {
  }

  /**
   * A cut frame and the remaining buffer make up the old buffer, and the
   * frame is an encoded frame whose length word matches its size.
   */
  lemma SplitFrameComplete(buf: Bytes)
    requires SplitFrame(buf).Complete?
    ensures SplitFrame(buf).frame + SplitFrame(buf).rest == buf
    ensures var f := SplitFrame(buf).frame;
      |f| >= 8 && BigEndian(f[..4]) + 8 == |f| && f == EncodeFrame(f[4..8], f[8..])
  {
    var f := SplitFrame(buf).frame;
    assert f[..4] == buf[..4];
    PackUnpack(f[..4]);
    assert f == f[..4] + f[4..8] + f[8..];
  }

  /** The buffer is too short for its frame exactly when the declared size exceeds it. */
  lemma SplitFrameIncomplete(buf: Bytes)
    requires |buf| >= 4
    ensures SplitFrame(buf).Incomplete? <==> BigEndian(buf[..4]) + 8 > |buf|
    ensures SplitFrame(buf).Incomplete? ==> SplitFrame(buf).length == BigEndian(buf[..4]) + 8
  {
  }

  /** Framing round trip: an encoded frame at the front of a buffer is cut off exactly. */
  lemma SplitEncoded(tag: Bytes, body: Bytes, rest: Bytes)
    requires |tag| == 4 && |body| < WORD
    ensures SplitFrame(EncodeFrame(tag, body) + rest) == Complete(EncodeFrame(tag, body), rest)
  {
    var f := EncodeFrame(tag, body);
    var buf := f + rest;
    assert Head(buf) == PackInt(|body|);
    UnpackPack(|body|);
    assert buf[..|f|] == f && buf[|f|..] == rest;
  }

  /**
   * The worked example beside the framing code: length word 0x10, sub-header
   * 0x0000000c and 16 payload bytes form one 24-byte frame.
   */
  lemma DocCommentFrame(rest: Bytes)
    ensures var f: Bytes := [0x00, 0x00, 0x00, 0x10, 0x00, 0x00, 0x00, 0x0c,
                             0x66, 0x77, 0xbc, 0xf4, 0x41, 0x44, 0xb3, 0x9e,
                             0x28, 0x28, 0x1a, 0xe8, 0x77, 0x7d, 0xb5, 0x74];
      SplitFrame(f + rest) == Complete(f, rest) && |f| == 24
  {
    var f: Bytes := [0x00, 0x00, 0x00, 0x10, 0x00, 0x00, 0x00, 0x0c,
                     0x66, 0x77, 0xbc, 0xf4, 0x41, 0x44, 0xb3, 0x9e,
                     0x28, 0x28, 0x1a, 0xe8, 0x77, 0x7d, 0xb5, 0x74];
    assert Head(f + rest) == [0x00, 0x00, 0x00, 0x10];
    assert (f + rest)[..24] == f && (f + rest)[24..] == rest;
  }
}
