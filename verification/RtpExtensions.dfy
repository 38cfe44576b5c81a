/** The extension walk on well-formed lists (RFC 5285, sections 4.2 and 4.3):
    what it visits, what the map holds afterwards, and where the stored pointers
    point. */
module RtpExtensions {
  import opened Bytes
  import opened Rtp

  /** One zero byte, or an element with its identifier and value. */
  datatype Item = Pad | Element(id: byte, value: seq<byte>)

  /** RFC 5285: one-byte elements have ids 1 to 14 and 1 to 16 value bytes,
      two-byte elements have ids 1 to 255 and 0 to 255 value bytes. */
  predicate ValidItem(profile: u16, item: Item)
  {
    match item
    case Pad => true
    case Element(id, value) =>
      if profile == ONE_BYTE_PROFILE then 1 <= id <= 14 && 1 <= |value| <= 16
      else 1 <= id && |value| < 0x100
  }

  ghost predicate ValidItems(profile: u16, items: seq<Item>)
  {
    Supported(profile) && forall i :: 0 <= i < |items| ==> ValidItem(profile, items[i])
  }

  function EncodeItem(profile: u16, item: Item): (s: seq<byte>)
    requires ValidItem(profile, item)
    ensures |s| == if item.Pad? then 1 else ElementHeader(profile) + |item.value|
  {
    match item
    case Pad => [0]
    case Element(id, value) =>
      (if profile == ONE_BYTE_PROFILE then [0x10 * (id as int) + |value| - 1] else [id, |value|]) + value
  }

  function EncodeItems(profile: u16, items: seq<Item>): seq<byte>
    requires ValidItems(profile, items)
  {
    if items == [] then [] else EncodeItem(profile, items[0]) + EncodeItems(profile, items[1..])
  }

  /** The map after recording the items in order. */
  function Record(profile: u16, offset: nat, items: seq<Item>, exts: ExtensionMap): ExtensionMap
    requires ValidItems(profile, items)
  {
    if items == [] then exts
    else Record(profile, offset, items[1..],
                match items[0]
                case Pad => exts
                case Element(id, value) =>
                  exts[id as u16 := Extension(id, |value|, offset + ElementHeader(profile))])
  }

  /** The loop guard stops short of an element without a value at the very end. */
  function Visited(items: seq<Item>): seq<Item>
  {
    if items != [] && items[|items| - 1].Element? && items[|items| - 1].value == []
    then items[..|items| - 1] else items
  }

  lemma FrontItem(data: seq<byte>, at: nat, end: nat, profile: u16, item: Item, rest: seq<byte>)
    requires Supported(profile) && ValidItem(profile, item)
    requires at <= end <= |data| && data[at..end] == EncodeItem(profile, item) + rest
    ensures end == at + |EncodeItem(profile, item)| + |rest|
    ensures data[at + |EncodeItem(profile, item)|..end] == rest
    ensures item.Pad? <==> data[at] == 0
    ensures item.Element? ==> forall offset: nat ::
              ElementAt(data, offset, at, profile) == Extension(item.id, |item.value|, offset + ElementHeader(profile))
  {
    var block := data[at..end];
    assert |block| == end - at;
    var n := |EncodeItem(profile, item)|;
    assert block[n..] == rest && data[at + n..end] == block[n..];
    assert data[at] == block[0];
    if item.Element? && profile != ONE_BYTE_PROFILE {
      assert data[at + 1] == block[1];
    }
  }

  lemma EncodeTailLength(profile: u16, items: seq<Item>)
    requires ValidItems(profile, items)
    ensures |EncodeItems(profile, items)| >= |items|
    ensures |EncodeItems(profile, items)| == 0 <==> items == []
  {
    if items != [] {
      EncodeTailLength(profile, items[1..]);
    }
  }

  /** At most an element header's worth of bytes is left: pads, and perhaps one
      element without a value as the last item, none of which is recorded. */
  lemma ShortTail(profile: u16, offset: nat, items: seq<Item>, exts: ExtensionMap)
    requires ValidItems(profile, items) && |EncodeItems(profile, items)| <= ElementHeader(profile)
    ensures Record(profile, offset, Visited(items), exts) == exts
  {
    EncodeTailLength(profile, items);
    if items != [] {
      EncodeTailLength(profile, items[1..]);
      assert EncodeItems(profile, items) == EncodeItem(profile, items[0]) + EncodeItems(profile, items[1..]);
      if items[0].Element? {
        assert items[0].value == [] && items[1..] == [];
        assert Visited(items) == [];
      } else if |items| == 1 {
        assert Visited(items)[1..] == [];
      } else {
        assert items[1..] != [];
        assert EncodeItems(profile, items[1..])
            == EncodeItem(profile, items[1..][0]) + EncodeItems(profile, items[1..][1..]);
        EncodeTailLength(profile, items[1..][1..]);
        assert items[1] == Pad && |items| == 2;
        assert Visited(items) == items && items[1..][1..] == [];
        assert Record(profile, offset, items, exts) == Record(profile, offset, items[1..], exts);
      }
    }
  }

  lemma VisitedStep(items: seq<Item>)
    requires items != [] && (|items| > 1 || !(items[0].Element? && items[0].value == []))
    ensures Visited(items) != [] && Visited(items)[0] == items[0] && Visited(items)[1..] == Visited(items[1..])
  {}

  /** The walk visits each item of a well-formed list once, in order. */
  lemma {:induction false} WalkRecords(data: seq<byte>, offset: nat, capacity: nat, profile: u16, size: nat,
                                       items: seq<Item>, exts: ExtensionMap)
    requires offset + capacity <= |data| && size <= capacity && ValidItems(profile, items)
    requires data[offset + size..offset + capacity] == EncodeItems(profile, items)
    ensures WalkExtensions(data, offset, capacity, profile, size, exts)
         == Record(profile, offset, Visited(items), exts)
    decreases |items|
  {
    hide ElementAt, EncodeItem, Visited;
    assert |data[offset + size..offset + capacity]| == capacity - size;
    var hl := ElementHeader(profile);
    if size + hl >= capacity {
      ShortTail(profile, offset, items, exts);
    } else {
      EncodeTailLength(profile, items);
      var item, rest := items[0], items[1..];
      EncodeTailLength(profile, rest);
      FrontItem(data, offset + size, offset + capacity, profile, item, EncodeItems(profile, rest));
      VisitedStep(items);
      var next := size + |EncodeItem(profile, item)|;
      if item.Pad? {
        WalkRecords(data, offset, capacity, profile, next, rest, exts);
      } else {
        var e := ElementAt(data, offset, offset + size, profile);
        WalkRecords(data, offset, capacity, profile, next, rest, exts[e.id as u16 := e]);
      }
    }
  }

  /** The walk over well-formed items in front of a longer tail. */
  lemma {:induction false} WalkReaches(data: seq<byte>, offset: nat, capacity: nat, profile: u16, size: nat,
                                       items: seq<Item>, tail: seq<byte>, exts: ExtensionMap)
    requires offset + capacity <= |data| && size <= capacity && ValidItems(profile, items)
    requires data[offset + size..offset + capacity] == EncodeItems(profile, items) + tail
    requires |tail| > ElementHeader(profile)
    ensures WalkExtensions(data, offset, capacity, profile, size, exts)
         == WalkExtensions(data, offset, capacity, profile, capacity - |tail|, Record(profile, offset, items, exts))
    decreases |items|
  {
    hide ElementAt, EncodeItem, Record, Stops;
    assert |data[offset + size..offset + capacity]| == capacity - size;
    RecordUnfold(profile, offset, items, exts);
    if items != [] {
      var item, rest := items[0], items[1..];
      Assoc(EncodeItem(profile, item), EncodeItems(profile, rest), tail);
      FrontItem(data, offset + size, offset + capacity, profile, item, EncodeItems(profile, rest) + tail);
      var next := size + |EncodeItem(profile, item)|;
      if item.Pad? {
        WalkReaches(data, offset, capacity, profile, next, rest, tail, exts);
      } else {
        var e := ElementAt(data, offset, offset + size, profile);
        ValidDoesNotStop(profile, item, offset);
        WalkReaches(data, offset, capacity, profile, next, rest, tail, exts[e.id as u16 := e]);
      }
    }
  }

  lemma RecordUnfold(profile: u16, offset: nat, items: seq<Item>, exts: ExtensionMap)
    requires ValidItems(profile, items)
    ensures Record(profile, offset, items, exts) ==
            if items == [] then exts
            else Record(profile, offset, items[1..],
                        if items[0].Pad? then exts
                        else exts[items[0].id as u16 := Extension(items[0].id, |items[0].value|,
                                                                  offset + ElementHeader(profile))])
  {}

  lemma ValidDoesNotStop(profile: u16, item: Item, offset: nat)
    requires ValidItem(profile, item) && item.Element?
    ensures !Stops(profile, Extension(item.id, |item.value|, offset + ElementHeader(profile)))
  {}

  /** An element that ends the list (id 15, or id 0 with a length) or that is
      longer than the block is recorded itself, and nothing after it. */
  lemma WalkStopsAt(data: seq<byte>, offset: nat, capacity: nat, profile: u16,
                    items: seq<Item>, tail: seq<byte>, exts: ExtensionMap)
    requires offset + capacity <= |data| && ValidItems(profile, items)
    requires data[offset..offset + capacity] == EncodeItems(profile, items) + tail
    requires |tail| > ElementHeader(profile) && tail[0] != 0
    requires var e := ElementAt(tail, 0, 0, profile); Stops(profile, e) || ElementHeader(profile) + e.length > |tail|
    ensures var e := ElementAt(tail, 0, 0, profile).(data := offset + ElementHeader(profile));
            WalkExtensions(data, offset, capacity, profile, 0, exts)
            == Record(profile, offset, items, exts)[e.id as u16 := e]
  {
    hide WalkExtensions, Record, EncodeItems;
    WalkReaches(data, offset, capacity, profile, 0, items, tail, exts);
    var block, at := data[offset..offset + capacity], capacity - |tail|;
    assert |block| == capacity;
    assert data[offset + at] == block[at] == tail[0] && data[offset + at + 1] == block[at + 1] == tail[1];
    LastStep(data, offset, capacity, profile, at, Record(profile, offset, items, exts));
  }

  lemma LastStep(data: seq<byte>, offset: nat, capacity: nat, profile: u16, size: nat, exts: ExtensionMap)
    requires offset + capacity <= |data| && size + ElementHeader(profile) < capacity && data[offset + size] != 0
    requires var e := ElementAt(data, offset, offset + size, profile);
             Stops(profile, e) || size + ElementHeader(profile) + e.length > capacity
    ensures var e := ElementAt(data, offset, offset + size, profile);
            WalkExtensions(data, offset, capacity, profile, size, exts) == exts[e.id as u16 := e]
  {}

  // ---------------------------------------------------------------- what the map holds

  /** Position of the last element with an identifier, -1 if there is none. */
  function LastIndex(items: seq<Item>, id: byte): (k: int)
    ensures -1 <= k < |items|
    ensures k >= 0 ==> items[k].Element? && items[k].id == id
    ensures forall j :: k < j < |items| ==> !(items[j].Element? && items[j].id == id)
  {
    if items == [] then -1
    else if items[|items| - 1].Element? && items[|items| - 1].id == id then |items| - 1
    else LastIndex(items[..|items| - 1], id)
  }

  lemma {:induction false} RecordSnoc(profile: u16, offset: nat, items: seq<Item>, last: Item, exts: ExtensionMap)
    requires ValidItems(profile, items + [last]) && ValidItems(profile, items) && ValidItem(profile, last)
    ensures Record(profile, offset, items + [last], exts) ==
            var m := Record(profile, offset, items, exts);
            match last
            case Pad => m
            case Element(id, value) => m[id as u16 := Extension(id, |value|, offset + ElementHeader(profile))]
    decreases |items|
  {
    if items == [] {
      assert ([] + [last])[1..] == [];
    } else {
      var both, rest := items + [last], items[1..];
      assert both[0] == items[0] && both[1..] == rest + [last];
      match items[0] {
        case Pad => RecordSnoc(profile, offset, rest, last, exts);
        case Element(id, value) =>
          RecordSnoc(profile, offset, rest, last,
                     exts[id as u16 := Extension(id, |value|, offset + ElementHeader(profile))]);
      }
    }
  }

  /** After the walk, an identifier of the list maps to the length of its last
      element, and every other identifier keeps what the map held before. */
  lemma {:induction false} RecordLookup(profile: u16, offset: nat, items: seq<Item>, exts: ExtensionMap, id: byte)
    requires ValidItems(profile, items)
    ensures var m, k := Record(profile, offset, items, exts), LastIndex(items, id);
            if k >= 0 then id as u16 in m
              && m[id as u16] == Extension(id, |items[k].value|, offset + ElementHeader(profile))
            else (id as u16 in m <==> id as u16 in exts) && (id as u16 in m ==> m[id as u16] == exts[id as u16])
    decreases |items|
  {
    if items != [] {
      var front, last := items[..|items| - 1], items[|items| - 1];
      assert items == front + [last] && ValidItem(profile, last);
      RecordSnoc(profile, offset, front, last, exts);
      RecordLookup(profile, offset, front, exts, id);
    }
  }

  /** The whole block: the walk on an encoded list leaves, for each identifier,
      the last length in the list. A two-byte element without a value that ends
      the block is the only item passed over. */
  lemma WalkOnList(data: seq<byte>, offset: nat, profile: u16, items: seq<Item>, exts: ExtensionMap, id: byte)
    requires ValidItems(profile, items)
    requires var n := |EncodeItems(profile, items)|;
             offset + n <= |data| && data[offset..offset + n] == EncodeItems(profile, items)
    ensures var m := WalkExtensions(data, offset, |EncodeItems(profile, items)|, profile, 0, exts);
            var k := LastIndex(Visited(items), id);
            if k >= 0 then id as u16 in m
              && m[id as u16] == Extension(id, |items[k].value|, offset + ElementHeader(profile))
            else (id as u16 in m <==> id as u16 in exts) && (id as u16 in m ==> m[id as u16] == exts[id as u16])
  {
    hide WalkExtensions, Record;
    WalkRecords(data, offset, |EncodeItems(profile, items)|, profile, 0, items, exts);
    RecordLookup(profile, offset, Visited(items), exts, id);
  }

  // ---------------------------------------------------------------- where the pointers point

  /** Where the value of item k really starts. */
  function ValueStart(profile: u16, offset: nat, items: seq<Item>, k: nat): nat
    requires k < |items| && ValidItems(profile, items)
  {
    offset + |EncodeItems(profile, items[..k])| + ElementHeader(profile)
  }

  /** In both profiles the stored pointer is the start of the element's value
      exactly when the element is the first item of the block. */
  lemma PointerRightIff(data: seq<byte>, offset: nat, profile: u16, items: seq<Item>, exts: ExtensionMap, id: byte,
                        k: nat)
    requires ValidItems(profile, items) && k < |Visited(items)| && LastIndex(Visited(items), id) == k
    requires var n := |EncodeItems(profile, items)|;
             offset + n <= |data| && data[offset..offset + n] == EncodeItems(profile, items)
    ensures var m := WalkExtensions(data, offset, |EncodeItems(profile, items)|, profile, 0, exts);
            id as u16 in m && (m[id as u16].data == ValueStart(profile, offset, items, k) <==> k == 0)
  {
    hide WalkExtensions, EncodeItems;
    WalkOnList(data, offset, profile, items, exts, id);
    EncodeTailLength(profile, items[..k]);
  }
}
