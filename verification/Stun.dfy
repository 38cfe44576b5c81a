/** STUN binding messages: the attribute walk of Parse, MakeResponse, and the
    tail of Serialize that appends MESSAGE-INTEGRITY and FINGERPRINT while
    rewriting the length field in between. HMAC-SHA1 is an arbitrary function
    from key and text to 20 bytes. */
module Stun {
  import opened Bytes
  import Crc32

  const HEADER_SIZE: int := 20
  const ATTR_HEADER_SIZE: int := 4
  const HMAC_SIZE: int := 20
  const FINGERPRINT_SIZE: int := 4
  const MAX_STUN_SIZE: int := 640

  const USERNAME: u16 := 0x0006
  const MESSAGE_INTEGRITY: u16 := 0x0008
  const FINGERPRINT: u16 := 0x8028
  const RESPONSE: u16 := 2

  const MAGIC_COOKIE: seq<byte> := [0x21, 0x12, 0xA4, 0x42]

  type Digest = s: seq<byte> | |s| == 20 witness seq(20, _ => 0)
  type TransactionId = s: seq<byte> | |s| == 12 witness seq(12, _ => 0)
  type Hmac = (seq<byte>, seq<byte>) -> Digest

  /** `pad32`: the next multiple of four, in 32-bit arithmetic. */
  function Pad32(n: u32): u32
  {
    if n % 4 != 0 then (n - n % 4 + 4) % TWO32 else n
  }

  // ---------------------------------------------------------------- messages

  datatype Message = Message(username: seq<byte>, method_: u16, type_: u16, transId: TransactionId)

  /** The two class bits of the message type, `wd & 0x0110`. */
  function ClassBits(wd: u16): u16
  {
    wd / 0x100 % 2 * 0x100 + wd / 0x10 % 2 * 0x10
  }

  /** The method bits, `wd & 0xFEEF`. */
  function MethodBits(wd: u16): u16
  {
    wd - ClassBits(wd)
  }

  /** `method | (type & 2) << 7 | (type & 1) << 4`. */
  function TypeWord(m: u16, t: u16): nat
  {
    BitOr(BitOr(m, t / 2 % 2 * 0x100), t % 2 * 0x10)
  }

  // ---------------------------------------------------------------- the attribute walk

  datatype Walk = Overrun | Walked(username: seq<byte>)

  /** The loop of Parse from position i, with the user name found so far. */
  function WalkFrom(data: seq<byte>, i: nat, username: seq<byte>): Walk
    decreases |data| - i
  {
    if i + 4 >= |data| then Walked(username)
    else
      var attrType, attrLen := Read16(data, i), Read16(data, i + 2);
      var at := i + ATTR_HEADER_SIZE;
      if at + attrLen > |data| then Overrun
      else WalkFrom(data, at + Pad32(attrLen), if attrType == USERNAME then data[at..at + attrLen] else username)
  }

  datatype Parsed = Rejected | Accepted(message: Message)

  /** Parse of the first `size` bytes; the header is read whatever the size. */
  function ParseBuffer(data: seq<byte>, size: nat): Parsed
    requires |data| >= HEADER_SIZE && size <= |data|
  {
    var wd := Read16(data, 0);
    match WalkFrom(data[..size], HEADER_SIZE, [])
    case Overrun => Rejected
    case Walked(username) => Accepted(Message(username, MethodBits(wd), ClassBits(wd), data[8..20]))
  }

  function Parse(data: seq<byte>): Parsed
    requires |data| >= HEADER_SIZE
  {
    ParseBuffer(data, |data|)
  }

  /** The reply to a message: same transaction, method and user name. */
  function MakeResponse(m: Message): Message
  {
    m.(type_ := RESPONSE)
  }

  // ---------------------------------------------------------------- sealing

  /** A header with its length field set. */
  function WithLength(header: seq<byte>, len: nat): (h: seq<byte>)
    requires |header| == HEADER_SIZE
    ensures |h| == HEADER_SIZE
  {
    header[..2] + Be16(len) + header[4..]
  }

  function AttrHeader(attrType: u16, len: nat): (s: seq<byte>)
    ensures |s| == ATTR_HEADER_SIZE
  {
    Be16(attrType) + Be16(len)
  }

  /** The attribute MESSAGE-INTEGRITY over a header and attributes. */
  function Integrity(header: seq<byte>, attrs: seq<byte>, pwd: seq<byte>, hmac: Hmac): (s: seq<byte>)
    requires |header| == HEADER_SIZE
    ensures |s| == ATTR_HEADER_SIZE + HMAC_SIZE
  {
    AttrHeader(MESSAGE_INTEGRITY, HMAC_SIZE)
    + hmac(pwd, WithLength(header, |attrs| + ATTR_HEADER_SIZE + HMAC_SIZE) + attrs)
  }

  /** Everything the fingerprint covers. */
  function Protected(header: seq<byte>, attrs: seq<byte>, pwd: seq<byte>, hmac: Hmac): (s: seq<byte>)
    requires |header| == HEADER_SIZE
    ensures |s| == HEADER_SIZE + |attrs| + ATTR_HEADER_SIZE + HMAC_SIZE
  {
    WithLength(header, |attrs| + ATTR_HEADER_SIZE + HMAC_SIZE + ATTR_HEADER_SIZE + FINGERPRINT_SIZE)
    + attrs + Integrity(header, attrs, pwd, hmac)
  }

  /** The finished message for a header and attributes. */
  function Sealed(header: seq<byte>, attrs: seq<byte>, pwd: seq<byte>, hmac: Hmac): (s: seq<byte>)
    requires |header| == HEADER_SIZE
    ensures |s| == HEADER_SIZE + |attrs| + 32
  {
    var body := Protected(header, attrs, pwd, hmac);
    body + AttrHeader(FINGERPRINT, FINGERPRINT_SIZE) + Be32(Crc32.Fingerprint(body))
  }

  /** The header Serialize writes, before its length is set. */
  function HeaderOf(m: Message): (h: seq<byte>)
    ensures |h| == HEADER_SIZE
  {
    Be16(TypeWord(m.method_, m.type_)) + [0, 0] + MAGIC_COOKIE + m.transId
  }

  /** What Serialize returns: it writes no attributes of its own. */
  function Wire(m: Message, pwd: seq<byte>, hmac: Hmac): seq<byte>
  {
    Sealed(HeaderOf(m), [], pwd, hmac)
  }
}
