/** STUN messages as bytes, with every number of RFC 5389 written out: what Parse
    makes of any attribute section, and what the reply to a request looks like. */
module StunWire {
  import opened Bytes
  import opened Stun
  import opened StunTheorems
  import CrcReference

  // ---------------------------------------------------------------- requests

  /** The type word without its two class bits, in terms of its two bytes. */
  lemma TypeOfBytes(data: seq<byte>)
    requires |data| >= 2
    ensures ClassBits(Read16(data, 0)) == (data[0] as int) % 2 * 0x100 + (data[1] as int) / 0x10 % 2 * 0x10
    ensures MethodBits(Read16(data, 0))
         == (data[0] as int) / 2 * 2 * 0x100 + ((data[1] as int) - (data[1] as int) / 0x10 % 2 * 0x10)
  {
    var wd, a, b: int := Read16(data, 0), data[0], data[1];
    DivMod(wd, 0x100, a, b);
    DivMod(wd, 0x10, 0x10 * a + b / 0x10, b % 0x10);
    assert (0x10 * a + b / 0x10) % 2 == b / 0x10 % 2;
  }

  /** Method, class bits and transaction of an accepted message. */
  lemma ParsedBytes(data: seq<byte>, m: Message)
    requires |data| >= HEADER_SIZE && Stun.Parse(data) == Accepted(m)
    ensures m.method_ == (data[0] as int) / 2 * 2 * 0x100 + ((data[1] as int) - (data[1] as int) / 0x10 % 2 * 0x10)
    ensures m.type_ == (data[0] as int) % 2 * 0x100 + (data[1] as int) / 0x10 % 2 * 0x10
    ensures m.transId == data[8..20]
  {
    hide MethodBits, ClassBits, Read16, WalkFrom;
    TypeOfBytes(data);
  }

  /** The walk passes any padded attributes in front of anything. */
  lemma {:induction false} WalkPasses(data: seq<byte>, i: nat, attrs: seq<Attr>, tail: seq<byte>, username: seq<byte>)
    requires ValidAttrs(attrs) && i <= |data| && data[i..] == Encode(attrs) + tail && tail != []
    ensures WalkFrom(data, i, username) == WalkFrom(data, |data| - |tail|, LastUsername(attrs, username))
    decreases |attrs|
  {
    hide Pad32, Read16, EncodeAttr;
    assert |data[i..]| == |data| - i;
    if attrs != [] {
      var a, rest := attrs[0], attrs[1..];
      Assoc(EncodeAttr(a), Encode(rest), tail);
      FrontAttr(data, i, a, Encode(rest) + tail);
      WalkPasses(data, i + 4 + |a.value| + |a.pad|, rest, tail, if a.attrType == 0x0006 then a.value else username);
    }
  }

  /** Behind any padded attributes, a last one that claims more bytes than there
      are rejects the message; one that ends less than a padding before the end is
      taken like the others. */
  lemma LastAttribute(header: seq<byte>, attrs: seq<Attr>, attrType: u16, len: u16, rest: seq<byte>)
    requires |header| == HEADER_SIZE && ValidAttrs(attrs) && rest != []
    ensures len > |rest| ==>
              Stun.Parse(header + Encode(attrs) + (Be16(attrType) + Be16(len) + rest)) == Rejected
    ensures |rest| - 4 < len <= |rest| ==>
              var m := Stun.Parse(header + Encode(attrs) + (Be16(attrType) + Be16(len) + rest));
              m.Accepted? && m.message.username == if attrType == 0x0006 then rest[..len] else LastUsername(attrs, [])
  {
    hide Be16, Read16, Encode, Pad32, LastUsername, MethodBits, ClassBits, WalkFrom;
    var tail := Be16(attrType) + Be16(len) + rest;
    var data := header + Encode(attrs) + tail;
    assert data == header + (Encode(attrs) + tail);
    Split(header, Encode(attrs) + tail);
    WalkPasses(data, HEADER_SIZE, attrs, tail, []);
    assert data[..|data|] == data;
    var at := |data| - |tail|;
    Split(header + Encode(attrs), tail);
    LastStep(data, at, attrType, len, rest, LastUsername(attrs, []));
  }

  /** Up to four bytes behind them are ignored. */
  lemma StrayBytes(header: seq<byte>, attrs: seq<Attr>, tail: seq<byte>)
    requires |header| == HEADER_SIZE && ValidAttrs(attrs) && 0 < |tail| <= 4
    ensures var m := Stun.Parse(header + Encode(attrs) + tail);
            m.Accepted? && m.message.username == LastUsername(attrs, [])
  {
    hide Read16, Encode, LastUsername, MethodBits, ClassBits;
    var data := header + Encode(attrs) + tail;
    assert data == header + (Encode(attrs) + tail);
    Split(header, Encode(attrs) + tail);
    WalkPasses(data, HEADER_SIZE, attrs, tail, []);
    assert data[..|data|] == data;
  }

  lemma LastStep(data: seq<byte>, at: nat, attrType: u16, len: u16, rest: seq<byte>, username: seq<byte>)
    requires at <= |data| && data[at..] == Be16(attrType) + Be16(len) + rest && rest != []
    ensures len > |rest| ==> WalkFrom(data, at, username) == Overrun
    ensures |rest| - 4 < len <= |rest| ==>
              WalkFrom(data, at, username) == Walked(if attrType == 0x0006 then rest[..len] else username)
  {
    hide Be16, Read16;
    AttrHeaderReads(data, at, attrType, len, rest);
    assert |data[at..]| == |data| - at;
    if len <= |rest| {
      DropSlice(data, at, 4, 4 + len);
      assert (Be16(attrType) + Be16(len) + rest)[4..4 + len] == rest[..len];
    }
  }

  lemma AttrHeaderReads(data: seq<byte>, at: nat, attrType: u16, len: u16, rest: seq<byte>)
    requires at <= |data| && data[at..] == Be16(attrType) + Be16(len) + rest
    ensures |data| == at + 4 + |rest| && Read16(data, at) == attrType && Read16(data, at + 2) == len
  {
    hide Be16, Read16;
    var tail := data[at..];
    assert |tail| == |data| - at;
    assert tail[0..2] == Be16(attrType) && tail[2..4] == Be16(len);
    WordInTail(data, at, 0, attrType);
    WordInTail(data, at, 2, len);
  }

  /** The type word of a message: the method, with the high bit of the class at
      0x100 and the low bit at 0x10. */
  lemma TypeWordBits(m: u16, t: u16)
    requires ClassBits(m) == 0 && t < 4
    ensures TypeWord(m, t) == m + t / 2 * 0x100 + t % 2 * 0x10 < TWO16
    ensures ClassBits(TypeWord(m, t)) == t / 2 * 0x100 + t % 2 * 0x10
  {
    hide BitOr;
    var m': u16 := m + t / 2 * 0x100;
    if t / 2 == 1 {
      OrBit8(m);
      AddClassBit(m);
    } else {
      BitOrZero(m);
    }
    if t % 2 == 1 {
      OrBit4(m');
    } else {
      BitOrZero(m');
    }
    AddLowBit(m', t % 2);
  }

  /** Or-ing in bit 4 when it is clear adds it. */
  lemma OrBit4(m: nat)
    requires m / 0x10 % 2 == 0
    ensures BitOr(m, 0x10) == m + 0x10
  {
    hide BitOr, Shift, Pow2;
    var hi, lo := m / 0x10, m % 0x10;
    PowersOfTwo();
    ShiftIsProduct(hi, 4);
    ShiftIsProduct(1, 4);
    OrSplit(hi, 1, lo, 0, 4);
    OrIsAdd(hi / 2, 1, 1);
    ShiftIsProduct(hi + 1, 4);
    BitOrZero(lo);
  }

  lemma PowersOfTwo()
    ensures Pow2(4) == 0x10 && Pow2(1) == 2
  {}

  lemma AddLowBit(m: u16, b: nat)
    requires m / 0x10 % 2 == 0 && b < 2
    ensures m + 0x10 * b < TWO16 && ClassBits(m + 0x10 * b) == m / 0x100 % 2 * 0x100 + b * 0x10
  {
    hide ClassBits;
    var hi, d, e := Nibbles(m);
    ClassOfNibbles(hi, d + b, e);
  }

  lemma Nibbles(m: u16) returns (hi: nat, d: nat, e: nat)
    ensures hi < 0x100 && d < 0x10 && e < 0x10 && m == 0x100 * hi + 0x10 * d + e
    ensures hi == m / 0x100 && d % 2 == m / 0x10 % 2
  {
    hi, d, e := m / 0x100, m % 0x100 / 0x10, m % 0x10;
    DivMod(m, 0x10, 0x10 * hi + d, m % 0x100 % 0x10);
    assert (0x10 * hi + d) % 2 == d % 2;
  }

  lemma ClassOfNibbles(hi: nat, d: nat, e: nat)
    requires hi < 0x100 && d < 0x10 && e < 0x10
    ensures ClassBits(0x100 * hi + 0x10 * d + e) == hi % 2 * 0x100 + d % 2 * 0x10
  {
    DivMod(0x100 * hi + 0x10 * d + e, 0x100, hi, 0x10 * d + e);
    DivMod(0x100 * hi + 0x10 * d + e, 0x10, 0x10 * hi + d, e);
    assert (0x10 * hi + d) % 2 == d % 2;
  }

  // ---------------------------------------------------------------- replies

  /** The reply to a request: type with the response bit, the length, the magic
      cookie, the transaction, MESSAGE-INTEGRITY over the message with length 24,
      and FINGERPRINT over the message with length 32. */
  function ReplyTo(request: seq<byte>, pwd: seq<byte>, hmac: Hmac): seq<byte>
    requires |request| >= 20
  {
    var a, b: int := request[0], request[1];
    var first: seq<byte> := [a / 2 * 2 + 1, b - b / 0x10 % 2 * 0x10, 0];
    var rest: seq<byte> := [0x21, 0x12, 0xA4, 0x42] + request[8..20];
    var text := first + [32] + rest + ([0x00, 0x08, 0x00, 0x14] + hmac(pwd, first + [24] + rest));
    var crc := BitXor(CrcReference.Value(CrcReference.Checksum(text)), 0x5354_554E);
    text + [0x80, 0x28, 0x00, 0x04]
    + [crc / 0x100_0000 % 0x100, crc / 0x1_0000 % 0x100, crc / 0x100 % 0x100, crc % 0x100]
  }

  /** That is what is sent for any accepted request; the object keeps the user name. */
  lemma ReplyOnWire(request: seq<byte>, m: Message, pwd: seq<byte>, hmac: Hmac)
    requires |request| >= HEADER_SIZE && Stun.Parse(request) == Accepted(m)
    ensures Wire(Stun.MakeResponse(m), pwd, hmac) == ReplyTo(request, pwd, hmac)
    ensures Stun.MakeResponse(m).username == m.username
  {
    hide Crc32.Fingerprint, CrcReference.Value, CrcReference.Checksum, BitXor, MethodBits, ClassBits, TypeWord,
      WalkFrom, Protected;
    var reply := Stun.MakeResponse(m);
    var a, b: int := request[0], request[1];
    MethodHasNoClass(Read16(request, 0));
    ResponseWord(m.method_);
    ParsedBytes(request, m);
    TypeBytes(m.method_, a, b);
    ReplyHeader(reply, a, b);
    ReplyText(HeaderOf(reply), [a / 2 * 2 + 1, b - b / 0x10 % 2 * 0x10, 0], m.transId, pwd, hmac);
    CrcReference.FingerprintIsChecksum(Protected(HeaderOf(reply), [], pwd, hmac));
  }

  lemma TypeBytes(method_: u16, a: byte, b: byte)
    requires method_ == (a as int) / 2 * 2 * 0x100 + ((b as int) - (b as int) / 0x10 % 2 * 0x10)
    ensures method_ + 0x100 < TWO16
    ensures Be16(method_ + 0x100) == [(a as int) / 2 * 2 + 1, (b as int) - (b as int) / 0x10 % 2 * 0x10]
  {
    var hi, lo := (a as int) / 2 * 2, (b as int) - (b as int) / 0x10 % 2 * 0x10;
    DivMod(method_ + 0x100, 0x100, hi + 1, lo);
  }

  lemma ReplyHeader(reply: Message, a: int, b: int)
    requires 0 <= a < 0x100 && 0 <= b < 0x100
    requires TypeWord(reply.method_, reply.type_) < TWO16
    requires Be16(TypeWord(reply.method_, reply.type_)) == [a / 2 * 2 + 1, b - b / 0x10 % 2 * 0x10]
    ensures HeaderOf(reply)
         == [a / 2 * 2 + 1, b - b / 0x10 % 2 * 0x10, 0, 0] + ([0x21, 0x12, 0xA4, 0x42] + reply.transId)
  {
    hide TypeWord, Be16;
  }

  lemma ReplyText(h: seq<byte>, first: seq<byte>, transId: TransactionId, pwd: seq<byte>, hmac: Hmac)
    requires |first| == 3 && h == first + [0] + ([0x21, 0x12, 0xA4, 0x42] + transId) && first[2] == 0
    ensures var rest := [0x21, 0x12, 0xA4, 0x42] + transId;
            Protected(h, [], pwd, hmac) ==
            first + [32] + rest + ([0x00, 0x08, 0x00, 0x14] + hmac(pwd, first + [24] + rest))
  {
    var rest := [0x21, 0x12, 0xA4, 0x42] + transId;
    assert first == first[..2] + [0];
    assert h[..2] == first[..2] && h[4..] == rest;
    assert WithLength(h, 24) + [] == first + [24] + rest;
    assert WithLength(h, 32) + [] == first + [32] + rest;
  }
}
