/** The STUN packet object: Parse, MakeResponse and Serialize on buffers,
    proved against the functions of module Stun. */
module StunPackets {
  import opened Bytes
  import opened ByteIo
  import opened Stun
  import Crc32

  /** Two consecutive writes at the end of what is already there. */
  lemma WrittenPrefix(before: seq<byte>, after: seq<byte>, at: nat, bytes: seq<byte>)
    requires Written(before, after, at, bytes)
    ensures after[..at] == before[..at] && after[..at + |bytes|] == before[..at] + bytes
  {}

  method WriteBytes(data: array<byte>, at: nat, bytes: seq<byte>)
    requires at + |bytes| <= data.Length
    modifies data
    ensures Written(old(data[..]), data[..], at, bytes)
  {
    forall i | 0 <= i < |bytes| {
      data[at + i] := bytes[i];
    }
    assert data[..] == old(data[..])[..at] + bytes + old(data[..])[at + |bytes|..];
  }

  /** Rewriting the length field of a header that heads a longer text. */
  lemma LengthRewritten(before: seq<byte>, after: seq<byte>, n: nat, len: nat)
    requires Written(before, after, 2, Be16(len)) && HEADER_SIZE <= n <= |before|
    ensures after[..n] == WithLength(before[..HEADER_SIZE], len) + before[HEADER_SIZE..n]
  {
    assert after[..n] == before[..2] + Be16(len) + before[4..n];
    assert before[4..n] == before[..HEADER_SIZE][4..] + before[HEADER_SIZE..n];
  }

  /** The tail of Serialize: the length is set for the integrity attribute, the
      HMAC is taken, the length is set again, and the fingerprint is appended. */
  method Seal(data: array<byte>, attrSize: nat, pwd: seq<byte>, hmac: Hmac, crc: Crc32.Crc32Table)
    returns (size: nat)
    requires crc.Valid() && data as object != crc.table as object && HEADER_SIZE + attrSize + 32 <= data.Length
    modifies data
    ensures size == HEADER_SIZE + attrSize + 32
    ensures data[..size] == Sealed(old(data[..HEADER_SIZE]), old(data[HEADER_SIZE..HEADER_SIZE + attrSize]), pwd, hmac)
  {
    hide Crc32.Fingerprint;
    ghost var header, attrs := data[..HEADER_SIZE], data[HEADER_SIZE..HEADER_SIZE + attrSize];
    var end := HEADER_SIZE + attrSize;
    ghost var s0 := data[..];
    Write2(data, 2, attrSize + ATTR_HEADER_SIZE + HMAC_SIZE);
    ghost var s1 := data[..];
    LengthRewritten(s0, s1, end, attrSize + ATTR_HEADER_SIZE + HMAC_SIZE);
    ghost var text := WithLength(header, attrSize + ATTR_HEADER_SIZE + HMAC_SIZE) + attrs;
    assert s1[..end] == text;
    var digest := WriteIntegrity(data, end, pwd, hmac);
    ghost var s2 := data[..];
    assert s2[..end + 24] == text + Integrity(header, attrs, pwd, hmac);
    Write2(data, 2, attrSize + ATTR_HEADER_SIZE + HMAC_SIZE + ATTR_HEADER_SIZE + FINGERPRINT_SIZE);
    ghost var body := Protected(header, attrs, pwd, hmac);
    SecondLength(s2, data[..], header, attrs, Integrity(header, attrs, pwd, hmac));
    assert data[..end + 24] == body;
    var crc32 := crc.CalculateXorCrc(data, end + 24);
    WriteFingerprint(data, end + 24, crc32);
    return end + 32;
  }

  /** The length field changes; the text after it does not. */
  lemma SecondLength(before: seq<byte>, after: seq<byte>, header: seq<byte>, attrs: seq<byte>, mi: seq<byte>)
    requires |header| == HEADER_SIZE && |attrs + mi| + HEADER_SIZE <= |before|
    requires before[..HEADER_SIZE + |attrs + mi|] == WithLength(header, |attrs| + 24) + attrs + mi
    requires Written(before, after, 2, Be16(|attrs| + 32))
    ensures after[..HEADER_SIZE + |attrs + mi|] == WithLength(header, |attrs| + 32) + attrs + mi
  {
    var n := HEADER_SIZE + |attrs + mi|;
    LengthRewritten(before, after, n, |attrs| + 32);
    var whole := before[..n];
    assert whole == WithLength(header, |attrs| + 24) + (attrs + mi);
    Split(WithLength(header, |attrs| + 24), attrs + mi);
    assert before[..HEADER_SIZE] == whole[..HEADER_SIZE] && before[HEADER_SIZE..n] == whole[HEADER_SIZE..];
    assert WithLength(before[..HEADER_SIZE], |attrs| + 32) == WithLength(header, |attrs| + 32);
  }

  method WriteIntegrity(data: array<byte>, end: nat, pwd: seq<byte>, hmac: Hmac) returns (digest: Digest)
    requires end + ATTR_HEADER_SIZE + HMAC_SIZE <= data.Length
    modifies data
    ensures data[..end + 24]
         == old(data[..end]) + (AttrHeader(MESSAGE_INTEGRITY, HMAC_SIZE) + hmac(pwd, old(data[..end])))
  {
    ghost var s0 := data[..];
    Write2(data, end, MESSAGE_INTEGRITY);
    ghost var s1 := data[..];
    WrittenPrefix(s0, s1, end, Be16(MESSAGE_INTEGRITY));
    Write2(data, end + 2, HMAC_SIZE);
    ghost var s2 := data[..];
    WrittenPrefix(s1, s2, end + 2, Be16(HMAC_SIZE));
    assert s2[..end] == s0[..end] by { assert s2[..end + 2][..end] == s1[..end + 2][..end]; }
    digest := hmac(pwd, data[..end]);
    WriteBytes(data, end + 4, digest);
    WrittenPrefix(s2, data[..], end + 4, digest);
    assert data[..end + 24] == s0[..end] + Be16(MESSAGE_INTEGRITY) + Be16(HMAC_SIZE) + digest;
    Assoc(s0[..end], Be16(MESSAGE_INTEGRITY), Be16(HMAC_SIZE));
    Assoc(s0[..end], AttrHeader(MESSAGE_INTEGRITY, HMAC_SIZE), digest);
  }

  method WriteFingerprint(data: array<byte>, end: nat, crc32: u32)
    requires end + 8 <= data.Length
    modifies data
    ensures data[..end + 8] == old(data[..end]) + AttrHeader(FINGERPRINT, FINGERPRINT_SIZE) + Be32(crc32)
  {
    ghost var s0 := data[..];
    Write2(data, end, FINGERPRINT);
    ghost var s1 := data[..];
    WrittenPrefix(s0, s1, end, Be16(FINGERPRINT));
    Write2(data, end + 2, FINGERPRINT_SIZE);
    ghost var s2 := data[..];
    WrittenPrefix(s1, s2, end + 2, Be16(FINGERPRINT_SIZE));
    Write4(data, end + 4, crc32);
    WrittenPrefix(s2, data[..], end + 4, Be32(crc32));
    Assoc(s0[..end], Be16(FINGERPRINT), Be16(FINGERPRINT_SIZE));
  }

  // ---------------------------------------------------------------- the object

  class StunPacket {
    var username: seq<byte>
    var method_: u16
    var type_: u16
    var transId: TransactionId

    ghost function Value(): Message
      reads this
    {
      Message(username, method_, type_, transId)
    }

    constructor (m: Message)
      ensures Value() == m
    {
      username, method_, type_, transId := m.username, m.method_, m.type_, m.transId;
    }

    /** Null for a message with an attribute that runs past the end. */
    static method Parse(data: array<byte>, size: nat) returns (rv: StunPacket?)
      requires HEADER_SIZE <= data.Length && size <= data.Length
      ensures rv == null <==> ParseBuffer(data[..], size) == Rejected
      ensures rv != null ==> fresh(rv) && ParseBuffer(data[..], size) == Accepted(rv.Value())
    {
      hide Pad32, WalkFrom, Read16;
      ghost var bytes := data[..size];
      assert bytes == data[..][..size];
      var wd := Read2(data, 0);
      var transId: TransactionId := data[8..20];
      assert data[..][8..20] == transId;
      var username: seq<byte> := [];
      var i := HEADER_SIZE;
      while i + 4 < size
        invariant HEADER_SIZE <= i
        invariant WalkFrom(bytes, i, username) == WalkFrom(bytes, HEADER_SIZE, [])
        decreases size - i
      {
        var attrType := Read2(data, i);
        var attrLen := Read2(data, i + 2);
        WordInPrefix(data[..], bytes, i);
        WordInPrefix(data[..], bytes, i + 2);
        WalkUnfold(bytes, i, username);
        i := i + ATTR_HEADER_SIZE;
        if i + attrLen > size {
          return null;
        }
        if attrType == USERNAME {
          username := data[i..i + attrLen];
          SliceSlice(data[..], 0, size, i, i + attrLen);
          assert bytes == data[..][0..size] && username == data[..][0 + i..0 + i + attrLen];
        }
        i := i + Pad32(attrLen);
      }
      WalkEnds(bytes, i, username);
      rv := new StunPacket(Message(username, MethodBits(wd), ClassBits(wd), transId));
    }

    method MakeResponse() returns (rv: StunPacket)
      ensures fresh(rv) && rv.Value() == Stun.MakeResponse(Value())
    {
      rv := new StunPacket(Message(username, method_, RESPONSE, transId));
    }

    /** A fresh 640-byte buffer whose first `size` bytes are the message. */
    method Serialize(pwd: seq<byte>, hmac: Hmac, crc: Crc32.Crc32Table) returns (data: array<byte>, size: nat)
      requires crc.Valid()
      ensures fresh(data) && data.Length == 640
      ensures size <= data.Length && data[..size] == Wire(Value(), pwd, hmac)
    {
      hide Crc32.Fingerprint, Sealed;
      data := new byte[MAX_STUN_SIZE];
      Write2(data, 0, TypeWord(method_, type_));
      WriteBytes(data, 4, MAGIC_COOKIE);
      WriteBytes(data, 8, transId);
      ghost var header := data[..HEADER_SIZE];
      assert header[..2] == Be16(TypeWord(method_, type_)) && header[4..] == MAGIC_COOKIE + transId;
      assert data[HEADER_SIZE..HEADER_SIZE + 0] == [];
      SealedIgnoresLength(header, HeaderOf(Value()), [], pwd, hmac);
      size := Seal(data, 0, pwd, hmac, crc);
    }
  }

  lemma WordInPrefix(data: seq<byte>, bytes: seq<byte>, i: nat)
    requires i + 2 <= |bytes| <= |data| && bytes == data[..|bytes|]
    ensures Read16(bytes, i) == Read16(data, i)
  {}

  lemma WalkUnfold(data: seq<byte>, i: nat, username: seq<byte>)
    requires i + 4 < |data|
    ensures var attrType, attrLen := Read16(data, i), Read16(data, i + 2);
            var at := i + ATTR_HEADER_SIZE;
            WalkFrom(data, i, username) ==
            if at + attrLen > |data| then Overrun
            else WalkFrom(data, at + Pad32(attrLen), if attrType == USERNAME then data[at..at + attrLen] else username)
  {
    hide Read16, Pad32;
  }

  lemma WalkEnds(data: seq<byte>, i: nat, username: seq<byte>)
    requires i + 4 >= |data|
    ensures WalkFrom(data, i, username) == Walked(username)
  {}

  /** The two bytes of the length field are overwritten before they are read. */
  lemma SealedIgnoresLength(a: seq<byte>, b: seq<byte>, attrs: seq<byte>, pwd: seq<byte>, hmac: Hmac)
    requires |a| == |b| == HEADER_SIZE && a[..2] == b[..2] && a[4..] == b[4..]
    ensures Sealed(a, attrs, pwd, hmac) == Sealed(b, attrs, pwd, hmac)
  {
    hide Crc32.Fingerprint;
    assert forall len: nat :: WithLength(a, len) == WithLength(b, len);
  }
}
