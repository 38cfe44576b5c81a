/** Sealed messages against an independent verifier of MESSAGE-INTEGRITY and
    FINGERPRINT (RFC 5389, sections 6, 15.4 and 15.5), and the attribute walk
    against attribute lists. */
module StunTheorems {
  import opened Bytes
  import opened Stun
  import Crc32
  import CrcReference

  // ---------------------------------------------------------------- attribute lists

  /** A type-length-value attribute and its padding, whose content is free. */
  datatype Attr = Attr(attrType: u16, value: seq<byte>, pad: seq<byte>)

  predicate ValidAttr(a: Attr)
  {
    |a.value| < TWO16 && |a.pad| < 4 && (|a.value| + |a.pad|) % 4 == 0
  }

  ghost predicate ValidAttrs(attrs: seq<Attr>)
  {
    forall i :: 0 <= i < |attrs| ==> ValidAttr(attrs[i])
  }

  function EncodeAttr(a: Attr): (s: seq<byte>)
    ensures |s| == 4 + |a.value| + |a.pad|
  {
    Be16(a.attrType) + Be16(|a.value|) + a.value + a.pad
  }

  function Encode(attrs: seq<Attr>): seq<byte>
  {
    if attrs == [] then [] else EncodeAttr(attrs[0]) + Encode(attrs[1..])
  }

  lemma {:induction false} EncodeAligned(attrs: seq<Attr>)
    requires ValidAttrs(attrs)
    ensures |Encode(attrs)| % 4 == 0
  {
    hide EncodeAttr, ValidAttr;
    if attrs != [] {
      AttrAligned(attrs[0]);
      EncodeAligned(attrs[1..]);
      SumAligned(|EncodeAttr(attrs[0])|, |Encode(attrs[1..])|);
    }
  }

  lemma AttrAligned(a: Attr)
    requires ValidAttr(a)
    ensures |EncodeAttr(a)| % 4 == 0
  {}

  lemma SumAligned(m: nat, n: nat)
    requires m % 4 == 0 && n % 4 == 0
    ensures (m + n) % 4 == 0
  {}

  /** The fields of the attribute at the front of an encoded list. */
  lemma FrontAttr(data: seq<byte>, i: nat, a: Attr, rest: seq<byte>)
    requires ValidAttr(a) && i <= |data| && data[i..] == EncodeAttr(a) + rest
    ensures |data| == i + 4 + |a.value| + |a.pad| + |rest|
    ensures Read16(data, i) == a.attrType && Read16(data, i + 2) == |a.value|
    ensures data[i + 4..i + 4 + |a.value|] == a.value
    ensures Pad32(|a.value|) == |a.value| + |a.pad|
    ensures data[i + 4 + |a.value| + |a.pad|..] == rest
  {
    hide Read16, Pad32, EncodeAttr;
    assert |data[i..]| == |data| - i;
    FrontHeader(data, i, a, rest);
    FrontValue(data, i, a, rest);
    FrontRest(data, i, a, rest);
    PadToFour(|a.value|, |a.pad|);
  }

  lemma FrontHeader(data: seq<byte>, i: nat, a: Attr, rest: seq<byte>)
    requires |a.value| < TWO16 && i <= |data| && data[i..] == EncodeAttr(a) + rest
    ensures |data| >= i + 4 && Read16(data, i) == a.attrType && Read16(data, i + 2) == |a.value|
  {
    hide Read16, Be16;
    var tail := data[i..];
    assert |tail| == |data| - i;
    EncodedHeader(a, rest);
    WordInTail(data, i, 0, a.attrType);
    WordInTail(data, i, 2, |a.value|);
  }

  lemma EncodedHeader(a: Attr, rest: seq<byte>)
    ensures (EncodeAttr(a) + rest)[0..2] == Be16(a.attrType) && (EncodeAttr(a) + rest)[2..4] == Be16(|a.value|)
  {
    hide Be16;
    var head := Be16(a.attrType) + Be16(|a.value|);
    assert EncodeAttr(a) + rest == head + (a.value + a.pad + rest);
    assert head[0..2] == Be16(a.attrType) && head[2..4] == Be16(|a.value|);
  }

  lemma WordInTail(data: seq<byte>, i: nat, k: nat, v: u16)
    requires i + k + 2 <= |data| && data[i..][k..k + 2] == Be16(v)
    ensures Read16(data, i + k) == v
  {
    hide Read16, Be16;
    DropSlice(data, i, k, k + 2);
    Read16Slice(data, i + k);
    Be16RoundTrip(v);
  }

  lemma FrontValue(data: seq<byte>, i: nat, a: Attr, rest: seq<byte>)
    requires i <= |data| && data[i..] == EncodeAttr(a) + rest
    ensures |data| >= i + 4 + |a.value| && data[i + 4..i + 4 + |a.value|] == a.value
  {
    hide Be16;
    assert |data[i..]| == |data| - i;
    assert (EncodeAttr(a) + rest)[4..4 + |a.value|] == a.value;
    DropSlice(data, i, 4, 4 + |a.value|);
  }

  lemma FrontRest(data: seq<byte>, i: nat, a: Attr, rest: seq<byte>)
    requires i <= |data| && data[i..] == EncodeAttr(a) + rest
    ensures |data| == i + |EncodeAttr(a)| + |rest| && data[i + |EncodeAttr(a)|..] == rest
  {
    hide EncodeAttr;
    assert |data[i..]| == |data| - i;
    Split(EncodeAttr(a), rest);
    DropSlice(data, i, |EncodeAttr(a)|, |EncodeAttr(a)|);
  }

  lemma PadToFour(n: nat, pad: nat)
    requires n < TWO16 && pad < 4 && (n + pad) % 4 == 0
    ensures Pad32(n) == n + pad
  {}

  // ---------------------------------------------------------------- the walk of Parse

  /** The value of the last USERNAME of a list. */
  function LastUsername(attrs: seq<Attr>, before: seq<byte>): seq<byte>
  {
    if attrs == [] then before
    else LastUsername(attrs[1..], if attrs[0].attrType == 0x0006 then attrs[0].value else before)
  }

  /** The loop guard stops short of an empty attribute at the very end. */
  function Visited(attrs: seq<Attr>): seq<Attr>
  {
    if attrs != [] && attrs[|attrs| - 1].value == [] then attrs[..|attrs| - 1] else attrs
  }

  lemma {:induction false} WalkReadsAttrs(data: seq<byte>, i: nat, attrs: seq<Attr>, username: seq<byte>)
    requires ValidAttrs(attrs) && i <= |data| && data[i..] == Encode(attrs)
    ensures WalkFrom(data, i, username) == Walked(LastUsername(Visited(attrs), username))
    decreases |attrs|
  {
    hide Pad32, Read16;
    assert |data[i..]| == |data| - i;
    if attrs != [] {
      var a, rest := attrs[0], attrs[1..];
      FrontAttr(data, i, a, Encode(rest));
      if rest == [] {
        assert Encode(rest) == [];
        if a.value == [] {
          assert Visited(attrs) == [];
        } else {
          assert Visited(attrs) == attrs && Visited(rest) == rest;
          WalkReadsAttrs(data, i + 4 + |a.value| + |a.pad|, rest, if a.attrType == USERNAME then a.value else username);
        }
      } else {
        assert Visited(attrs)[0] == a && Visited(attrs)[1..] == Visited(rest);
        assert |Encode(rest)| >= 4 by { assert Encode(rest) == EncodeAttr(rest[0]) + Encode(rest[1..]); }
        WalkReadsAttrs(data, i + 4 + |a.value| + |a.pad|, rest, if a.attrType == USERNAME then a.value else username);
      }
    }
  }

  /** On a header followed by any list of padded attributes Parse succeeds and
      returns the last USERNAME it visits, the type bits and the transaction. */
  lemma ParseReadsAttrs(header: seq<byte>, attrs: seq<Attr>)
    requires |header| == HEADER_SIZE && ValidAttrs(attrs)
    ensures Stun.Parse(header + Encode(attrs)) ==
            Accepted(Message(LastUsername(Visited(attrs), []), MethodBits(Read16(header, 0)),
                             ClassBits(Read16(header, 0)), header[8..20]))
  {
    var data := header + Encode(attrs);
    Split(header, Encode(attrs));
    WalkReadsAttrs(data, HEADER_SIZE, attrs, []);
    assert data[..|data|] == data;
    assert data[8..20] == header[8..20];
    assert Read16(data, 0) == Read16(header, 0);
  }

  lemma {:induction false} LastUsernameSnoc(attrs: seq<Attr>, a: Attr, before: seq<byte>)
    ensures LastUsername(attrs + [a], before)
         == if a.attrType == USERNAME then a.value else LastUsername(attrs, before)
  {
    if attrs == [] {
      assert (attrs + [a])[1..] == [];
    } else {
      assert (attrs + [a])[1..] == attrs[1..] + [a];
      LastUsernameSnoc(attrs[1..], a, if attrs[0].attrType == USERNAME then attrs[0].value else before);
    }
  }

  /** The result is the last USERNAME of the whole list unless the list ends in
      an empty USERNAME that should have replaced a non-empty one. */
  lemma LastUsernameIff(attrs: seq<Attr>)
    ensures LastUsername(Visited(attrs), []) == LastUsername(attrs, [])
       <==> !(attrs != [] && attrs[|attrs| - 1].attrType == USERNAME && attrs[|attrs| - 1].value == []
              && LastUsername(attrs[..|attrs| - 1], []) != [])
  {
    hide LastUsername;
    if attrs != [] {
      var front, a := attrs[..|attrs| - 1], attrs[|attrs| - 1];
      assert attrs == front + [a];
      LastUsernameSnoc(front, a, []);
    }
  }

  // ---------------------------------------------------------------- type bits

  /** Or-ing in a bit that is clear adds it. */
  lemma OrBit8(m: u16)
    requires ClassBits(m) == 0
    ensures BitOr(m, 0x100) == m + 0x100
  {
    hide BitOr, Shift, Pow2;
    var hi, lo := m / 0x100, m % 0x100;
    Pow2Small();
    ShiftIsProduct(hi, 8);
    ShiftIsProduct(1, 8);
    OrSplit(hi, 1, lo, 0, 8);
    OrIsAdd(hi / 2, 1, 1);
    ShiftIsProduct(hi + 1, 8);
    BitOrZero(lo);
  }

  lemma Pow2Small()
    ensures Pow2(8) == 0x100 && Pow2(1) == 2
  {
    assert Pow2(4) == 16;
  }

  lemma MethodHasNoClass(wd: u16)
    ensures ClassBits(MethodBits(wd)) == 0
  {
    var w, e := wd / 16, wd % 16;
    var c, a := w / 2 % 8, w / 32;
    var y, x := w % 2, w / 16 % 2;
    WordBits(w);
    DivMod(wd, 0x100, 2 * a + x, 16 * (2 * c + y) + e);
    assert ClassBits(wd) == 0x100 * x + 0x10 * y;
    assert MethodBits(wd) == 512 * a + 32 * c + e;
    NoClassBits(a, c, e);
  }

  lemma WordBits(w: nat)
    ensures w == 32 * (w / 32) + 16 * (w / 16 % 2) + 2 * (w / 2 % 8) + w % 2
  {
    var v := w / 2;
    var u := v / 8;
    assert v == 8 * u + v % 8 && w == 2 * v + w % 2 && u == 2 * (u / 2) + u % 2;
    DivMod(w, 16, u, 2 * (v % 8) + w % 2);
    DivMod(w, 32, u / 2, 16 * (u % 2) + 2 * (v % 8) + w % 2);
  }

  lemma NoClassBits(a: nat, c: nat, e: nat)
    requires c < 8 && e < 16
    ensures (512 * a + 32 * c + e) / 0x100 % 2 == 0
    ensures (512 * a + 32 * c + e) / 0x10 % 2 == 0
  {
    var x := 512 * a + 32 * c + e;
    DivMod(x, 0x100, 2 * a, 32 * c + e);
    DivMod(x, 0x10, 2 * (16 * a + c), e);
  }

  lemma BitOrZero(a: nat)
    ensures BitOr(a, 0) == a
  {}

  /** The type word of a response carries the method and only the response class bit. */
  lemma ResponseWord(m: u16)
    requires ClassBits(m) == 0
    ensures TypeWord(m, RESPONSE) == m + 0x100 < TWO16
    ensures MethodBits(TypeWord(m, RESPONSE)) == m && ClassBits(TypeWord(m, RESPONSE)) == 0x100
  {
    hide BitOr, ClassBits;
    OrBit8(m);
    BitOrZero(m + 0x100);
    AddClassBit(m);
  }

  lemma AddClassBit(m: u16)
    requires ClassBits(m) == 0
    ensures m + 0x100 < TWO16 && ClassBits(m + 0x100) == 0x100
  {
    var q, d := m / 0x100, m / 0x10;
    assert q % 2 == 0 && d % 2 == 0;
    DivMod(m + 0x100, 0x100, q + 1, m % 0x100);
    DivMod(m + 0x100, 0x10, d + 16, m % 0x10);
  }

  /** The raw class bits kept by Parse are not the enumeration Serialize expects. */
  lemma RawClassWord(m: u16, wd: u16)
    ensures TypeWord(m, ClassBits(wd)) == m
  {
    BitOrZero(m);
    var c := ClassBits(wd);
    assert c % 2 == 0 && c / 2 % 2 == 0;
  }

  // ---------------------------------------------------------------- reply round trip

  /** The two attributes at the end of every sealed message. */
  function SealAttrs(header: seq<byte>, attrs: seq<byte>, pwd: seq<byte>, hmac: Hmac): (s: seq<Attr>)
    requires |header| == HEADER_SIZE
    ensures |s| == 2 && ValidAttrs(s)
  {
    var body := Protected(header, attrs, pwd, hmac);
    [Attr(MESSAGE_INTEGRITY, hmac(pwd, WithLength(header, |attrs| + ATTR_HEADER_SIZE + HMAC_SIZE) + attrs), []),
     Attr(FINGERPRINT, Be32(Crc32.Fingerprint(body)), [])]
  }

  lemma SealedIsAttrs(header: seq<byte>, attrs: seq<byte>, pwd: seq<byte>, hmac: Hmac)
    requires |header| == HEADER_SIZE
    ensures Sealed(header, attrs, pwd, hmac)
         == WithLength(header, |attrs| + 32) + attrs + Encode(SealAttrs(header, attrs, pwd, hmac))
  {
    hide Crc32.Fingerprint;
    var two := SealAttrs(header, attrs, pwd, hmac);
    var head := WithLength(header, |attrs| + 32);
    assert two[1..][1..] == [] && Encode([]) == [];
    assert Encode(two) == EncodeAttr(two[0]) + (EncodeAttr(two[1]) + []);
    assert EncodeAttr(two[0]) == Integrity(header, attrs, pwd, hmac);
    var fp := AttrHeader(FINGERPRINT, FINGERPRINT_SIZE) + Be32(Crc32.Fingerprint(Protected(header, attrs, pwd, hmac)));
    assert EncodeAttr(two[1]) == fp;
    Assoc(head + attrs, EncodeAttr(two[0]), fp);
  }

  /** A reply keeps the transaction and the method of the request and carries
      the response class; its user name is not transmitted. */
  lemma ReplyRoundTrip(request: seq<byte>, m: Message, pwd: seq<byte>, hmac: Hmac)
    requires |request| >= HEADER_SIZE && Stun.Parse(request) == Accepted(m)
    ensures Stun.Parse(Wire(Stun.MakeResponse(m), pwd, hmac)) == Accepted(Message([], m.method_, 0x100, m.transId))
  {
    hide Sealed, TypeWord;
    MethodHasNoClass(Read16(request, 0));
    ResponseWord(m.method_);
    WireParses(Stun.MakeResponse(m), pwd, hmac);
  }

  /** Serialising any message and parsing it back. */
  lemma WireParses(m: Message, pwd: seq<byte>, hmac: Hmac)
    requires TypeWord(m.method_, m.type_) < TWO16
    ensures var wd := TypeWord(m.method_, m.type_);
            Stun.Parse(Wire(m, pwd, hmac)) == Accepted(Message([], MethodBits(wd), ClassBits(wd), m.transId))
  {
    hide Sealed, TypeWord, Crc32.Fingerprint, Encode, LastUsername, SealAttrs, MethodBits, ClassBits;
    var h, w := HeaderOf(m), TypeWord(m.method_, m.type_);
    var two := SealAttrs(h, [], pwd, hmac);
    SealedIsAttrs(h, [], pwd, hmac);
    var h' := WithLength(h, 32);
    assert h' + [] == h';
    ParseReadsAttrs(h', two);
    Be16RoundTrip(w);
    assert h'[..2] == Be16(w) && h'[8..20] == m.transId;
    assert Read16(h', 0) == w;
    SealUsername(h, pwd, hmac);
  }

  lemma SealUsername(h: seq<byte>, pwd: seq<byte>, hmac: Hmac)
    requires |h| == HEADER_SIZE
    ensures LastUsername(Visited(SealAttrs(h, [], pwd, hmac)), []) == []
  {
    hide Crc32.Fingerprint;
    var two := SealAttrs(h, [], pwd, hmac);
    assert Visited(two) == two;
    assert LastUsername(two[1..], []) == LastUsername(two[1..][1..], []) == [];
  }

  /** Serialising a parsed message unchanged keeps its class exactly when it was a request. */
  lemma ReserialiseKeepsClassIff(data: seq<byte>, m: Message, pwd: seq<byte>, hmac: Hmac)
    requires |data| >= HEADER_SIZE && Stun.Parse(data) == Accepted(m)
    ensures Stun.Parse(Wire(m, pwd, hmac)).Accepted?
    ensures Stun.Parse(Wire(m, pwd, hmac)).message.type_ == m.type_ <==> ClassBits(Read16(data, 0)) == 0
  {
    RawClassWord(m.method_, Read16(data, 0));
    MethodHasNoClass(Read16(data, 0));
    WireParses(m, pwd, hmac);
  }

  // ---------------------------------------------------------------- an independent verifier

  datatype Search = Malformed | Missing | Found(at: nat)

  /** The first attribute of a type at or after position i. */
  function Find(msg: seq<byte>, i: nat, attrType: u16): (r: Search)
    ensures r.Found? ==> r.at + 4 <= |msg|
    decreases |msg| - i
  {
    if i >= |msg| then Missing
    else if i + 4 > |msg| || i + 4 + Pad32(Read16(msg, i + 2)) > |msg| then Malformed
    else if Read16(msg, i) == attrType then Found(i)
    else Find(msg, i + 4 + Pad32(Read16(msg, i + 2)), attrType)
  }

  /** Section 6: length, alignment, magic cookie and the two leading zero bits. */
  predicate HeaderHolds(msg: seq<byte>)
  {
    && |msg| >= 20 && |msg| % 4 == 0
    && Read16(msg, 2) == |msg| - 20
    && msg[4..8] == [0x21, 0x12, 0xA4, 0x42]
    && msg[0] < 0x40
  }

  /** Section 15.4: the HMAC covers the text before the attribute, with the
      length field set as if the message ended with the attribute. */
  predicate IntegrityHolds(msg: seq<byte>, pwd: seq<byte>, hmac: Hmac)
  {
    |msg| >= 20 &&
    match Find(msg, 20, 0x0008)
    case Found(p) =>
      && p >= 20 && p + 24 <= |msg| && Read16(msg, p + 2) == 20
      && msg[p + 4..p + 24] == hmac(pwd, msg[..2] + Be16(p + 24 - 20) + msg[4..p])
    case _ => false
  }

  /** Section 15.5: the last attribute holds the CRC-32 of all text before it, xored with 0x5354554E. */
  predicate FingerprintHolds(msg: seq<byte>)
  {
    match Find(msg, 20, 0x8028)
    case Found(f) =>
      && f + 8 == |msg| && Read16(msg, f + 2) == 4
      && Read32(msg, f + 4) == BitXor(CrcReference.Value(CrcReference.Checksum(msg[..f])), 0x5354_554E)
    case _ => false
  }

  predicate Authentic(msg: seq<byte>, pwd: seq<byte>, hmac: Hmac)
  {
    HeaderHolds(msg) && IntegrityHolds(msg, pwd, hmac) && FingerprintHolds(msg)
  }

  /** The search passes over attributes of other types. */
  lemma {:induction false} FindSkips(msg: seq<byte>, i: nat, attrs: seq<Attr>, rest: seq<byte>, attrType: u16)
    requires ValidAttrs(attrs) && i <= |msg| && msg[i..] == Encode(attrs) + rest
    requires forall k :: 0 <= k < |attrs| ==> attrs[k].attrType != attrType
    ensures Find(msg, i, attrType) == Find(msg, i + |Encode(attrs)|, attrType)
    decreases |attrs|
  {
    hide Pad32, Read16;
    if attrs != [] {
      var a, more := attrs[0], Encode(attrs[1..]) + rest;
      assert msg[i..] == EncodeAttr(a) + more by { Assoc(EncodeAttr(a), Encode(attrs[1..]), rest); }
      FrontAttr(msg, i, a, more);
      FindSkips(msg, i + |EncodeAttr(a)|, attrs[1..], rest, attrType);
    }
  }

  lemma FindFront(msg: seq<byte>, i: nat, a: Attr, rest: seq<byte>)
    requires ValidAttr(a) && i <= |msg| && msg[i..] == EncodeAttr(a) + rest
    ensures Find(msg, i, a.attrType) == Found(i)
    ensures Read16(msg, i + 2) == |a.value| && msg[i + 4..i + 4 + |a.value|] == a.value
  {
    hide Pad32, Read16;
    FrontAttr(msg, i, a, rest);
  }

  /** A list that does not already carry the two sealing attributes. */
  ghost predicate Plain(attrs: seq<Attr>)
  {
    ValidAttrs(attrs) && forall k :: 0 <= k < |attrs| ==>
      attrs[k].attrType != 0x0008 && attrs[k].attrType != 0x8028
  }

  /** A sealed message: header, attributes, integrity, fingerprint. */
  function Assembled(head: seq<byte>, attrs: seq<Attr>, mi: Attr, fp: Attr): seq<byte>
  {
    head + Encode(attrs) + (EncodeAttr(mi) + EncodeAttr(fp))
  }

  lemma TailAfterAttrs(head: seq<byte>, attrs: seq<Attr>, mi: Attr, fp: Attr)
    ensures var msg, p := Assembled(head, attrs, mi, fp), |head| + |Encode(attrs)|;
            && |msg| == p + |EncodeAttr(mi)| + |EncodeAttr(fp)|
            && msg[|head|..] == Encode(attrs) + (EncodeAttr(mi) + EncodeAttr(fp))
            && msg[p..] == EncodeAttr(mi) + EncodeAttr(fp)
            && msg[p + |EncodeAttr(mi)|..] == EncodeAttr(fp) + []
  {
    hide Encode, EncodeAttr;
    var msg, p := Assembled(head, attrs, mi, fp), |head| + |Encode(attrs)|;
    assert msg[p..][|EncodeAttr(mi)|..] == EncodeAttr(fp);
  }

  lemma EncodeOne(a: Attr)
    ensures Encode([a]) == EncodeAttr(a)
  {
    assert [a][1..] == [] && Encode([]) == [];
  }

  /** Positions of the two sealing attributes. */
  lemma SealPositions(head: seq<byte>, attrs: seq<Attr>, mi: Attr, fp: Attr)
    requires |head| == HEADER_SIZE && Plain(attrs) && ValidAttr(mi) && ValidAttr(fp)
    requires mi.attrType == MESSAGE_INTEGRITY && fp.attrType == FINGERPRINT
    ensures var msg, p := Assembled(head, attrs, mi, fp), HEADER_SIZE + |Encode(attrs)|;
            && Find(msg, 20, MESSAGE_INTEGRITY) == Found(p)
            && Find(msg, 20, FINGERPRINT) == Found(p + |EncodeAttr(mi)|)
  {
    hide Find, Encode, EncodeAttr, Assembled;
    var msg, p := Assembled(head, attrs, mi, fp), HEADER_SIZE + |Encode(attrs)|;
    TailAfterAttrs(head, attrs, mi, fp);
    FindSkips(msg, 20, attrs, EncodeAttr(mi) + EncodeAttr(fp), MESSAGE_INTEGRITY);
    FindFront(msg, p, mi, EncodeAttr(fp));
    FindSkips(msg, 20, attrs, EncodeAttr(mi) + EncodeAttr(fp), FINGERPRINT);
    EncodeOne(mi);
    FindSkips(msg, p, [mi], EncodeAttr(fp), FINGERPRINT);
    FindFront(msg, p + |EncodeAttr(mi)|, fp, []);
  }

  // ---------------------------------------------------------------- every sealed message is accepted

  lemma SealedAssembled(header: seq<byte>, attrs: seq<Attr>, pwd: seq<byte>, hmac: Hmac)
    requires |header| == HEADER_SIZE
    ensures var two := SealAttrs(header, Encode(attrs), pwd, hmac);
            Sealed(header, Encode(attrs), pwd, hmac)
            == Assembled(WithLength(header, |Encode(attrs)| + 32), attrs, two[0], two[1])
  {
    hide Sealed, SealAttrs, EncodeAttr;
    var two := SealAttrs(header, Encode(attrs), pwd, hmac);
    SealedIsAttrs(header, Encode(attrs), pwd, hmac);
    assert two[1..] == [two[1]];
    EncodeOne(two[1]);
  }

  lemma SealedHeader(header: seq<byte>, attrs: seq<Attr>, pwd: seq<byte>, hmac: Hmac)
    requires |header| == HEADER_SIZE && header[4..8] == [0x21, 0x12, 0xA4, 0x42] && ValidAttrs(attrs)
    requires |Encode(attrs)| + 32 < TWO16
    ensures HeaderHolds(Sealed(header, Encode(attrs), pwd, hmac)) <==> header[0] < 0x40
  {
    hide Encode, Sealed, WithLength;
    EncodeAligned(attrs);
    SealedStarts(header, Encode(attrs), pwd, hmac);
    StartReads(Sealed(header, Encode(attrs), pwd, hmac), header, |Encode(attrs)| + 32);
  }

  lemma SealedStarts(header: seq<byte>, e: seq<byte>, pwd: seq<byte>, hmac: Hmac)
    requires |header| == HEADER_SIZE
    ensures Sealed(header, e, pwd, hmac)[..HEADER_SIZE] == WithLength(header, |e| + 32)
  {
    hide Crc32.Fingerprint, Integrity;
  }

  lemma LengthFieldSet(header: seq<byte>, n: nat)
    requires |header| == HEADER_SIZE
    ensures var head := WithLength(header, n);
            head[0] == header[0] && head[2..4] == Be16(n) && head[4..8] == header[4..8]
  {
    hide Be16;
    var head := WithLength(header, n);
    assert head == header[..2] + (Be16(n) + header[4..]);
  }

  /** The header fields of a message that starts with a header of a given length. */
  lemma StartReads(msg: seq<byte>, header: seq<byte>, n: nat)
    requires |header| == HEADER_SIZE <= |msg| && n < TWO16
    requires msg[..HEADER_SIZE] == WithLength(header, n)
    ensures Read16(msg, 2) == n && msg[0] == header[0] && msg[4..8] == header[4..8]
  {
    hide WithLength, Be16, Read16;
    var head := msg[..HEADER_SIZE];
    LengthFieldSet(header, n);
    assert msg[0] == head[0];
    SliceSlice(msg, 0, HEADER_SIZE, 4, 8);
    SliceSlice(msg, 0, HEADER_SIZE, 2, 4);
    assert msg[0..HEADER_SIZE] == head;
    Be16RoundTrip(n);
    Read16Slice(msg, 2);
  }

  lemma SealedIntegrity(header: seq<byte>, attrs: seq<Attr>, pwd: seq<byte>, hmac: Hmac)
    requires |header| == HEADER_SIZE && Plain(attrs)
    ensures IntegrityHolds(Sealed(header, Encode(attrs), pwd, hmac), pwd, hmac)
  {
    hide Sealed, Crc32.Fingerprint, Encode, Find, SealAttrs;
    var e := Encode(attrs);
    var two, head := SealAttrs(header, e, pwd, hmac), WithLength(header, |e| + 32);
    var msg, p := Assembled(head, attrs, two[0], two[1]), HEADER_SIZE + |e|;
    SealedAssembled(header, attrs, pwd, hmac);
    SealAttrsAre(header, e, pwd, hmac);
    SealPositions(head, attrs, two[0], two[1]);
    TailAfterAttrs(head, attrs, two[0], two[1]);
    FindFront(msg, p, two[0], EncodeAttr(two[1]));
    IntegrityText(msg, header, e, p);
  }

  lemma SealAttrsAre(header: seq<byte>, e: seq<byte>, pwd: seq<byte>, hmac: Hmac)
    requires |header| == HEADER_SIZE
    ensures var two := SealAttrs(header, e, pwd, hmac);
            && two[0] == Attr(MESSAGE_INTEGRITY, hmac(pwd, WithLength(header, |e| + 24) + e), [])
            && two[1] == Attr(FINGERPRINT, Be32(Crc32.Fingerprint(Protected(header, e, pwd, hmac))), [])
            && ValidAttr(two[0]) && ValidAttr(two[1])
  {}

  /** With the length field put back, the text before the attribute is what was signed. */
  lemma IntegrityText(msg: seq<byte>, header: seq<byte>, e: seq<byte>, p: nat)
    requires |header| == HEADER_SIZE && p == HEADER_SIZE + |e| <= |msg|
    requires msg[..p] == WithLength(header, |e| + 32) + e
    ensures msg[..2] + Be16(p + 24 - 20) + msg[4..p] == WithLength(header, |e| + 24) + e
  {
    var t := msg[..p];
    assert msg[..2] == t[..2] == header[..2] && msg[4..p] == t[4..] == header[4..] + e;
  }

  lemma SealedFingerprint(header: seq<byte>, attrs: seq<Attr>, pwd: seq<byte>, hmac: Hmac)
    requires |header| == HEADER_SIZE && Plain(attrs)
    ensures FingerprintHolds(Sealed(header, Encode(attrs), pwd, hmac))
  {
    hide Crc32.Fingerprint, Encode, Find, SealAttrs, Protected, Sealed, Assembled, Read16, Read32, BitXor,
      CrcReference.Value, CrcReference.Checksum;
    var e := Encode(attrs);
    var two, head := SealAttrs(header, e, pwd, hmac), WithLength(header, |e| + 32);
    var msg, f := Assembled(head, attrs, two[0], two[1]), HEADER_SIZE + |e| + 24;
    SealedAssembled(header, attrs, pwd, hmac);
    SealAttrsAre(header, e, pwd, hmac);
    SealPositions(head, attrs, two[0], two[1]);
    TailAfterAttrs(head, attrs, two[0], two[1]);
    FindFront(msg, f, two[1], []);
    ProtectedPrefix(header, e, pwd, hmac);
    CrcReference.FingerprintIsChecksum(msg[..f]);
    FingerprintReads(msg, f, Protected(header, e, pwd, hmac));
  }

  lemma ProtectedPrefix(header: seq<byte>, e: seq<byte>, pwd: seq<byte>, hmac: Hmac)
    requires |header| == HEADER_SIZE
    ensures Sealed(header, e, pwd, hmac)[..HEADER_SIZE + |e| + 24] == Protected(header, e, pwd, hmac)
  {
    hide Crc32.Fingerprint;
  }

  lemma FingerprintReads(msg: seq<byte>, f: nat, body: seq<byte>)
    requires |msg| == f + 8 && msg[f + 4..f + 8] == Be32(Crc32.Fingerprint(body))
    ensures Read32(msg, f + 4) == Crc32.Fingerprint(body)
  {
    hide Crc32.Fingerprint, Be32, Read32;
    var c := Crc32.Fingerprint(body);
    Crc32.FingerprintBound(body);
    Be32RoundTrip(c);
    Read32Slice(msg, f + 4);
  }

  /** For any plain attribute list, the sealed message passes both integrity
      checks, and the whole verifier exactly when the type's two leading bits
      are zero, although the length field was rewritten between the two sums. */
  lemma SealedAuthentic(header: seq<byte>, attrs: seq<Attr>, pwd: seq<byte>, hmac: Hmac)
    requires |header| == HEADER_SIZE && header[4..8] == [0x21, 0x12, 0xA4, 0x42] && Plain(attrs)
    requires |Encode(attrs)| + 32 < TWO16
    ensures var msg := Sealed(header, Encode(attrs), pwd, hmac);
            && IntegrityHolds(msg, pwd, hmac) && FingerprintHolds(msg)
            && (Authentic(msg, pwd, hmac) <==> header[0] < 0x40)
  {
    hide HeaderHolds, IntegrityHolds, FingerprintHolds, Sealed, Encode;
    SealedHeader(header, attrs, pwd, hmac);
    SealedIntegrity(header, attrs, pwd, hmac);
    SealedFingerprint(header, attrs, pwd, hmac);
  }

  /** What Serialize writes for a response is authentic for its password exactly
      if the method leaves the two leading bits clear. */
  lemma ResponseAuthentic(m: Message, pwd: seq<byte>, hmac: Hmac)
    requires m.type_ == RESPONSE && ClassBits(m.method_) == 0
    ensures Authentic(Wire(m, pwd, hmac), pwd, hmac) <==> m.method_ < 0x4000
  {
    hide Authentic, Sealed, TypeWord, ClassBits;
    ResponseWord(m.method_);
    var h := HeaderOf(m);
    assert h[4..8] == MAGIC_COOKIE;
    assert Encode([]) == [];
    ResponseTopBits(m.method_);
    SealedAuthentic(h, [], pwd, hmac);
  }

  lemma ResponseTopBits(m: u16)
    requires ClassBits(m) == 0
    ensures (m + 0x100) / 0x100 % 0x100 < 0x40 <==> m < 0x4000
  {
    var q := m / 0x100;
    assert q < 0x100 && q % 2 == 0;
    assert (m + 0x100) / 0x100 == q + 1 < 0x100;
  }

  /** The reply to a request is authentic exactly if the request itself has the
      two leading type bits clear. */
  lemma ReplyAuthenticIff(request: seq<byte>, m: Message, pwd: seq<byte>, hmac: Hmac)
    requires |request| >= HEADER_SIZE && Stun.Parse(request) == Accepted(m)
    ensures Authentic(Wire(Stun.MakeResponse(m), pwd, hmac), pwd, hmac) <==> request[0] < 0x40
  {
    hide Authentic, Wire, MethodBits, ClassBits, Read16;
    MethodHasNoClass(Read16(request, 0));
    ResponseAuthentic(Stun.MakeResponse(m), pwd, hmac);
    LeadingBits(request);
  }

  lemma LeadingBits(data: seq<byte>)
    requires |data| >= 2
    ensures MethodBits(Read16(data, 0)) < 0x4000 <==> data[0] < 0x40
  {
    var wd: int := Read16(data, 0);
    DivMod(wd, 0x100, data[0], data[1]);
    assert ClassBits(wd) <= 0x100 * ((data[0] as int) % 2) + 0x10;
    assert wd / 0x10 % 2 == 1 ==> data[1] >= 0x10;
  }

  // ---------------------------------------------------------------- damage is detected

  /** A message that passes the fingerprint check, damaged anywhere inside any 32
      consecutive bits, fails the check. */
  lemma DamageDetected(msg: seq<byte>, bad: seq<byte>, bit: nat)
    requires FingerprintHolds(msg) && |bad| == |msg| && bad != msg
    requires Crc32.SameOutside(Crc32.BitsOf(msg), Crc32.BitsOf(bad), bit)
    ensures !FingerprintHolds(bad)
  {
    hide FingerprintHolds, Crc32.BitsOf, Crc32.SameOutside;
    if FingerprintHolds(bad) {
      OnlyOneInBurst(msg, bad, bit);
    }
  }

  /** The four header bytes of the attribute are fixed and separate the text from
      its checksum, so a burst cannot change both. */
  lemma OnlyOneInBurst(a: seq<byte>, b: seq<byte>, bit: nat)
    requires FingerprintHolds(a) && FingerprintHolds(b) && |a| == |b|
    requires Crc32.SameOutside(Crc32.BitsOf(a), Crc32.BitsOf(b), bit)
    ensures a == b
  {
    hide FingerprintHolds, Crc32.Fingerprint, Crc32.BitsOf, Crc32.SameOutside, Read16, Read32;
    var f := |a| - 8;
    FingerprintParts(a);
    FingerprintParts(b);
    Crc32.SplitSameOutside(a, b, f, bit);
    Crc32.SplitSameOutside(a, b, f + 4, bit);
    if bit < 8 * f {
      assert a[f + 4..] == b[f + 4..];
      SameWord(a, b, f + 4);
      Crc32.SameFingerprintSameBurst(a[..f], b[..f], bit);
    }
    SameTail(a, b, f);
    assert a == a[..f] + a[f..] && b == b[..f] + b[f..];
  }

  lemma FingerprintParts(msg: seq<byte>)
    requires FingerprintHolds(msg)
    ensures var f := |msg| - 8;
            && f >= 0 && Read16(msg, f) == FINGERPRINT && Read16(msg, f + 2) == 4
            && Read32(msg, f + 4) == Crc32.Fingerprint(msg[..f])
  {
    hide Crc32.Fingerprint, Read16, Read32, Find, CrcReference.Value, CrcReference.Checksum, BitXor;
    FoundType(msg, 20, FINGERPRINT);
    CrcReference.FingerprintIsChecksum(msg[..|msg| - 8]);
  }

  lemma {:induction false} FoundType(msg: seq<byte>, i: nat, attrType: u16)
    requires Find(msg, i, attrType).Found?
    ensures Read16(msg, Find(msg, i, attrType).at) == attrType
    decreases |msg| - i
  {
    hide Read16, Pad32;
    if Read16(msg, i) != attrType {
      FoundType(msg, i + 4 + Pad32(Read16(msg, i + 2)), attrType);
    }
  }

  lemma SameWord(a: seq<byte>, b: seq<byte>, at: nat)
    requires |a| == |b| == at + 4 && a[at..] == b[at..]
    ensures Read32(a, at) == Read32(b, at)
  {
    assert forall i :: 0 <= i < 4 ==> a[at + i] == a[at..][i] && b[at + i] == b[at..][i];
  }

  lemma SameTail(a: seq<byte>, b: seq<byte>, f: nat)
    requires |a| == |b| == f + 8 && Read16(a, f) == Read16(b, f) && Read16(a, f + 2) == Read16(b, f + 2)
    requires Read32(a, f + 4) == Read32(b, f + 4)
    ensures a[f..] == b[f..]
  {
    SameBytes16(a, b, f);
    SameBytes16(a, b, f + 2);
    SameBytes32(a, b, f + 4);
    assert forall i :: 0 <= i < 8 ==> a[f..][i] == a[f + i] && b[f..][i] == b[f + i];
  }

  lemma SameBytes16(a: seq<byte>, b: seq<byte>, at: nat)
    requires at + 2 <= |a| && at + 2 <= |b| && Read16(a, at) == Read16(b, at)
    ensures a[at] == b[at] && a[at + 1] == b[at + 1]
  {}

  lemma SameBytes32(a: seq<byte>, b: seq<byte>, at: nat)
    requires at + 4 <= |a| && at + 4 <= |b| && Read32(a, at) == Read32(b, at)
    ensures a[at] == b[at] && a[at + 1] == b[at + 1] && a[at + 2] == b[at + 2] && a[at + 3] == b[at + 3]
  {}
}
