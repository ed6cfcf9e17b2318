/** The CBOR reader behind WebAuthn registration: headers, values to skip, COSE maps
    and the attestation object (RFC 8949, section 3; definite lengths only). */
module Cbor {
  import opened Text

  type Byte = b: int | 0 <= b < 256

  const TWO_63 := 0x8000_0000_0000_0000
  const TWO_64 := 0x1_0000_0000_0000_0000

  const BYTE_STRING := 2
  const TEXT_STRING := 3
  const ARRAY := 4
  const MAP := 5
  const TAG := 6
  const MAX_DEPTH := 16
  const MAX_COUNT := 1024

  // ---------------------------------------------------------------- headers

  /** How a header carries its argument: in the initial byte, or in the 1, 2, 4 or 8
      bytes that follow it. */
  datatype Width = Direct | One | Two | Four | Eight
  {
    function Bytes(): nat {
      match this
      case Direct => 0
      case One => 1
      case Two => 2
      case Four => 4
      case Eight => 8
    }

    predicate Fits(value: nat) {
      match this
      case Direct => value < 24
      case One => value < 0x100
      case Two => value < 0x1_0000
      case Four => value < 0x1_0000_0000
      case Eight => value < TWO_64
    }

    function Info(value: nat): nat
      requires Fits(value)
    {
      match this
      case Direct => value
      case One => 24
      case Two => 25
      case Four => 26
      case Eight => 27
    }
  }

  /** Big-endian reading of a byte string. */
  function Number(bytes: seq<Byte>): nat {
    if bytes == [] then 0 else Number(bytes[..|bytes| - 1]) * 256 + bytes[|bytes| - 1]
  }

  function BigEndian(value: nat, n: nat): (bytes: seq<Byte>)
    ensures |bytes| == n
  {
    if n == 0 then [] else BigEndian(value / 256, n - 1) + [value % 256]
  }

  function Pow256(n: nat): nat {
    if n == 0 then 1 else Pow256(n - 1) * 256
  }

  lemma {:induction false} NumberOfBigEndian(value: nat, n: nat)
    requires value < Pow256(n)
    ensures Number(BigEndian(value, n)) == value
  {
    if n > 0 {
      NumberOfBigEndian(value / 256, n - 1);
      var bytes := BigEndian(value, n);
      assert bytes[..|bytes| - 1] == BigEndian(value / 256, n - 1);
    }
  }

  lemma {:induction false} BigEndianOfNumber(bytes: seq<Byte>)
    ensures Number(bytes) < Pow256(|bytes|) && BigEndian(Number(bytes), |bytes|) == bytes
  {
    if bytes != [] {
      BigEndianOfNumber(bytes[..|bytes| - 1]);
    }
  }

  lemma FitsPow(w: Width, value: nat)
    requires w != Direct
    ensures w.Fits(value) <==> value < Pow256(w.Bytes())
  {
    assert Pow256(1) == 0x100 && Pow256(2) == 0x1_0000;
    assert Pow256(3) == 0x100_0000 && Pow256(4) == 0x1_0000_0000;
    assert Pow256(5) == 0x100_0000_0000 && Pow256(6) == 0x1_0000_0000_0000;
    assert Pow256(7) == 0x100_0000_0000_0000 && Pow256(8) == TWO_64;
  }

  function Header(major: nat, w: Width, value: nat): seq<Byte>
    requires major < 8 && w.Fits(value)
  {
    [major * 32 + w.Info(value)] + BigEndian(value, w.Bytes())
  }

  datatype Head = Head(major: nat, value: nat, next: nat)

  /** `readHeader` at `pos`: the major type, the argument and the position after it. */
  function ReadHead(data: seq<Byte>, pos: nat): Option<Head> {
    if pos >= |data| then None
    else
      var major, info := data[pos] / 32, data[pos] % 32;
      if info < 24 then Some(Head(major, info, pos + 1))
      else if info > 27 then None
      else
        var n := if info == 24 then 1 else if info == 25 then 2 else if info == 26 then 4 else 8;
        if pos + 1 + n > |data| then None
        else Some(Head(major, Number(data[pos + 1..pos + 1 + n]), pos + 1 + n))
  }

  /** `bytes` stands in `data` at `pos`. */
  predicate Stands(bytes: seq<Byte>, data: seq<Byte>, pos: nat) {
    pos + |bytes| <= |data| && data[pos..pos + |bytes|] == bytes
  }

  lemma StandsSplit(a: seq<Byte>, b: seq<Byte>, data: seq<Byte>, pos: nat)
    ensures Stands(a + b, data, pos) <==> Stands(a, data, pos) && Stands(b, data, pos + |a|)
  {
    if Stands(a + b, data, pos) {
      assert a == (a + b)[..|a|] && b == (a + b)[|a|..];
    }
    if Stands(a, data, pos) && Stands(b, data, pos + |a|) {
      assert data[pos..pos + |a + b|] == data[pos..pos + |a|] + data[pos + |a|..pos + |a| + |b|];
    }
  }

  /** Reading a header gives back what was written. */
  lemma ReadsHeader(major: nat, w: Width, value: nat, data: seq<Byte>, pos: nat)
    requires major < 8 && w.Fits(value) && Stands(Header(major, w, value), data, pos)
    ensures ReadHead(data, pos) == Some(Head(major, value, pos + 1 + w.Bytes()))
    ensures |Header(major, w, value)| == 1 + w.Bytes()
  {
    var tail := BigEndian(value, w.Bytes());
    StandsSplit([major * 32 + w.Info(value)], tail, data, pos);
    assert data[pos] == major * 32 + w.Info(value) by { assert data[pos..pos + 1][0] == data[pos]; }
    assert data[pos + 1..pos + 1 + w.Bytes()] == tail;
    if w != Direct {
      FitsPow(w, value);
      NumberOfBigEndian(value, w.Bytes());
      assert Number(tail) == value;
    }
    assert data[pos] / 32 == major && data[pos] % 32 == w.Info(value);
  }

  lemma DirectWas(data: seq<Byte>, pos: nat)
    requires pos < |data| && data[pos] % 32 < 24
    ensures Stands(Header(data[pos] / 32, Direct, data[pos] % 32), data, pos)
  {
    assert data[pos..pos + 1] == [data[pos]];
  }

  lemma WideWas(data: seq<Byte>, pos: nat, w: Width)
    requires w != Direct && pos + 1 + w.Bytes() <= |data| && data[pos] % 32 == w.Info(0)
    ensures var value := Number(data[pos + 1..pos + 1 + w.Bytes()]);
            w.Fits(value) && Stands(Header(data[pos] / 32, w, value), data, pos)
  {
    hide Number, BigEndian, Pow256;
    var rest := data[pos + 1..pos + 1 + w.Bytes()];
    BigEndianOfNumber(rest);
    FitsPow(w, Number(rest));
    assert data[pos..pos + 1 + w.Bytes()] == [data[pos]] + rest;
  }

  /** Every header that is read was written by `Header`. */
  lemma ReadHeaderWas(data: seq<Byte>, pos: nat) returns (w: Width)
    requires ReadHead(data, pos).Some?
    ensures var h := ReadHead(data, pos).value;
            && h.major < 8 && w.Fits(h.value) && h.next == pos + 1 + w.Bytes()
            && Stands(Header(h.major, w, h.value), data, pos)
  {
    hide Number, BigEndian, Stands, Header;
    var info := data[pos] % 32;
    if info < 24 {
      w := Direct;
      DirectWas(data, pos);
    } else {
      w := if info == 24 then One else if info == 25 then Two else if info == 26 then Four else Eight;
      WideWas(data, pos, w);
    }
  }

  // ---------------------------------------------------------------- items

  /** A data item with its encoding choices: numbers (majors 0, 1 and 7), strings
      (2, 3), arrays and maps as the list of their elements or of keys and values in
      turn (4, 5), and tagged items. */
  datatype Item =
    | Simple(major: nat, width: Width, value: nat)
    | String(major: nat, width: Width, bytes: seq<Byte>)
    | Collection(major: nat, width: Width, items: seq<Item>)
    | Tagged(width: Width, tag: nat, item: Item)

  /** The argument of a collection's header: a map counts pairs. */
  function Count(major: nat, items: seq<Item>): nat {
    if major == MAP then |items| / 2 else |items|
  }

  /** A definite-length item that the reader's limits admit at this nesting depth. */
  predicate Admissible(i: Item, depth: nat)
    decreases i, 1
  {
    depth <= MAX_DEPTH &&
    match i
    case Simple(major, width, value) => (major == 0 || major == 1 || major == 7) && width.Fits(value)
    case String(major, width, bytes) => (major == BYTE_STRING || major == TEXT_STRING) && width.Fits(|bytes|)
    case Collection(major, width, items) =>
      && (major == ARRAY || (major == MAP && |items| % 2 == 0))
      && width.Fits(Count(major, items)) && Count(major, items) <= MAX_COUNT
      && AllAdmissible(items, depth + 1)
    case Tagged(width, tag, item) => width.Fits(tag) && Admissible(item, depth + 1)
  }

  predicate AllAdmissible(items: seq<Item>, depth: nat)
    decreases items, 0
  {
    items == [] || (Admissible(items[0], depth) && AllAdmissible(items[1..], depth))
  }

  function Encode(i: Item, depth: nat): seq<Byte>
    requires Admissible(i, depth)
    decreases i, 1
  {
    match i
    case Simple(major, width, value) => Header(major, width, value)
    case String(major, width, bytes) => Header(major, width, |bytes|) + bytes
    case Collection(major, width, items) => Header(major, width, Count(major, items)) + EncodeAll(items, depth + 1)
    case Tagged(width, tag, item) => Header(TAG, width, tag) + Encode(item, depth + 1)
  }

  function EncodeAll(items: seq<Item>, depth: nat): seq<Byte>
    requires AllAdmissible(items, depth)
    decreases items, 0
  {
    if items == [] then [] else Encode(items[0], depth) + EncodeAll(items[1..], depth)
  }

  // ---------------------------------------------------------------- skipping

  /** `skipValue`: the position after the value whose header was just read. */
  function Skip(data: seq<Byte>, pos: nat, major: nat, value: nat, depth: nat): Option<nat>
    requires depth <= MAX_DEPTH + 1
    decreases MAX_DEPTH + 1 - depth, 0
  {
    if depth > MAX_DEPTH then None
    else if major == 0 || major == 1 || major == 7 then Some(pos)
    else if major == BYTE_STRING || major == TEXT_STRING then
      if value > |data| - pos then None else Some(pos + value)
    else if major == ARRAY then
      if value > MAX_COUNT then None else SkipMany(data, pos, value, depth + 1)
    else if major == MAP then
      if value > MAX_COUNT then None else SkipMany(data, pos, 2 * value, depth + 1)
    else if major == TAG then SkipItem(data, pos, depth + 1)
    else None
  }

  function SkipItem(data: seq<Byte>, pos: nat, depth: nat): Option<nat>
    requires depth <= MAX_DEPTH + 1
    decreases MAX_DEPTH + 1 - depth, 1
  {
    match ReadHead(data, pos)
    case None => None
    case Some(h) => Skip(data, h.next, h.major, h.value, depth)
  }

  function SkipMany(data: seq<Byte>, pos: nat, count: nat, depth: nat): Option<nat>
    requires depth <= MAX_DEPTH + 1
    decreases MAX_DEPTH + 1 - depth, 2, count
  {
    if count == 0 then Some(pos)
    else
      match SkipItem(data, pos, depth)
      case None => None
      case Some(next) => SkipMany(data, next, count - 1, depth)
  }

  /** An admissible item is skipped to exactly its encoded length. */
  lemma {:induction false} SkipsItem(i: Item, depth: nat, data: seq<Byte>, pos: nat)
    requires Admissible(i, depth) && Stands(Encode(i, depth), data, pos)
    ensures SkipItem(data, pos, depth) == Some(pos + |Encode(i, depth)|)
    decreases i, 1
  {
    match i {
      case Simple(major, width, value) => ReadsHeader(major, width, value, data, pos);
      case String(major, width, bytes) =>
        StandsSplit(Header(major, width, |bytes|), bytes, data, pos);
        ReadsHeader(major, width, |bytes|, data, pos);
      case Collection(major, width, items) => SkipsCollection(i, major, width, items, depth, data, pos);
      case Tagged(width, tag, item) => SkipsTagged(i, width, tag, item, depth, data, pos);
    }
  }

  lemma {:induction false} SkipsCollection(i: Item, major: nat, width: Width, items: seq<Item>, depth: nat,
      data: seq<Byte>, pos: nat)
    requires i == Collection(major, width, items)
    requires Admissible(i, depth) && Stands(Encode(i, depth), data, pos)
    ensures SkipItem(data, pos, depth) == Some(pos + |Encode(i, depth)|)
    decreases i, 0
  {
    hide ReadHead, Header, Stands, SkipMany;
    var header := Header(major, width, Count(major, items));
    StandsSplit(header, EncodeAll(items, depth + 1), data, pos);
    ReadsHeader(major, width, Count(major, items), data, pos);
    SkipsAll(items, depth + 1, data, pos + |header|);
    assert SkipItem(data, pos, depth) == Skip(data, pos + |header|, major, Count(major, items), depth);
  }

  lemma {:induction false} SkipsTagged(i: Item, width: Width, tag: nat, item: Item, depth: nat, data: seq<Byte>,
      pos: nat)
    requires i == Tagged(width, tag, item)
    requires Admissible(i, depth) && Stands(Encode(i, depth), data, pos)
    ensures SkipItem(data, pos, depth) == Some(pos + |Encode(i, depth)|)
    decreases i, 0
  {
    hide ReadHead, Header, Stands;
    var header := Header(TAG, width, tag);
    StandsSplit(header, Encode(item, depth + 1), data, pos);
    ReadsHeader(TAG, width, tag, data, pos);
    assert Admissible(item, depth + 1);
    SkipsItem(item, depth + 1, data, pos + |header|);
    assert SkipItem(data, pos, depth) == Skip(data, pos + |header|, TAG, tag, depth);
  }

  lemma {:induction false} SkipsAll(items: seq<Item>, depth: nat, data: seq<Byte>, pos: nat)
    requires depth <= MAX_DEPTH + 1 && AllAdmissible(items, depth) && Stands(EncodeAll(items, depth), data, pos)
    ensures SkipMany(data, pos, |items|, depth) == Some(pos + |EncodeAll(items, depth)|)
    decreases items, 0
  {
    hide Stands, Encode, Admissible, SkipItem;
    if items != [] {
      StandsSplit(Encode(items[0], depth), EncodeAll(items[1..], depth), data, pos);
      SkipsItem(items[0], depth, data, pos);
      SkipsAll(items[1..], depth, data, pos + |Encode(items[0], depth)|);
    }
  }

  /** Conversely, whatever is skipped was the encoding of an admissible item. */
  lemma {:induction false} SkippedWas(data: seq<Byte>, pos: nat, depth: nat) returns (i: Item)
    requires depth <= MAX_DEPTH + 1 && SkipItem(data, pos, depth).Some?
    ensures Admissible(i, depth) && Stands(Encode(i, depth), data, pos)
    ensures SkipItem(data, pos, depth) == Some(pos + |Encode(i, depth)|)
    decreases MAX_DEPTH + 1 - depth, 1
  {
    var h := ReadHead(data, pos).value;
    if h.major == BYTE_STRING || h.major == TEXT_STRING {
      i := StringWas(data, pos, depth);
    } else if h.major == ARRAY || h.major == MAP {
      i := CollectionWas(data, pos, depth);
    } else if h.major == TAG {
      i := TaggedWas(data, pos, depth);
    } else {
      var w := ReadHeaderWas(data, pos);
      i := Simple(h.major, w, h.value);
    }
    SkipsItem(i, depth, data, pos);
  }

  lemma StringWas(data: seq<Byte>, pos: nat, depth: nat) returns (i: Item)
    requires depth <= MAX_DEPTH + 1 && SkipItem(data, pos, depth).Some?
    requires var major := ReadHead(data, pos).value.major; major == BYTE_STRING || major == TEXT_STRING
    ensures Admissible(i, depth) && Stands(Encode(i, depth), data, pos)
  {
    var h := ReadHead(data, pos).value;
    var w := ReadHeaderWas(data, pos);
    i := String(h.major, w, data[h.next..h.next + h.value]);
    StandsSplit(Header(h.major, w, h.value), i.bytes, data, pos);
    assert Encode(i, depth) == Header(h.major, w, h.value) + i.bytes;
  }

  lemma {:induction false} CollectionWas(data: seq<Byte>, pos: nat, depth: nat) returns (i: Item)
    requires depth <= MAX_DEPTH + 1 && SkipItem(data, pos, depth).Some?
    requires var major := ReadHead(data, pos).value.major; major == ARRAY || major == MAP
    ensures Admissible(i, depth) && Stands(Encode(i, depth), data, pos)
    decreases MAX_DEPTH + 1 - depth, 0
  {
    hide ReadHead, SkipMany;
    var h := ReadHead(data, pos).value;
    var w := ReadHeaderWas(data, pos);
    var items := ManyWas(data, h.next, if h.major == MAP then 2 * h.value else h.value, depth + 1);
    i := Collection(h.major, w, items);
    assert Count(h.major, items) == h.value;
    StandsSplit(Header(h.major, w, h.value), EncodeAll(items, depth + 1), data, pos);
    assert Encode(i, depth) == Header(h.major, w, h.value) + EncodeAll(items, depth + 1);
  }

  lemma {:induction false} TaggedWas(data: seq<Byte>, pos: nat, depth: nat) returns (i: Item)
    requires depth <= MAX_DEPTH + 1 && SkipItem(data, pos, depth).Some?
    requires ReadHead(data, pos).value.major == TAG
    ensures Admissible(i, depth) && Stands(Encode(i, depth), data, pos)
    decreases MAX_DEPTH + 1 - depth, 0
  {
    hide ReadHead;
    var h := ReadHead(data, pos).value;
    var w := ReadHeaderWas(data, pos);
    var item := SkippedWas(data, h.next, depth + 1);
    i := Tagged(w, h.value, item);
    StandsSplit(Header(TAG, w, h.value), Encode(item, depth + 1), data, pos);
    assert Encode(i, depth) == Header(TAG, w, h.value) + Encode(item, depth + 1);
  }

  lemma {:induction false} ManyWas(data: seq<Byte>, pos: nat, count: nat, depth: nat) returns (items: seq<Item>)
    requires depth <= MAX_DEPTH + 1 && pos <= |data| && SkipMany(data, pos, count, depth).Some?
    ensures |items| == count && AllAdmissible(items, depth) && Stands(EncodeAll(items, depth), data, pos)
    decreases MAX_DEPTH + 1 - depth, 2, count
  {
    items := [];
    if count > 0 {
      var first := SkippedWas(data, pos, depth);
      var next := pos + |Encode(first, depth)|;
      var rest := ManyWas(data, next, count - 1, depth);
      items := [first] + rest;
      assert items[1..] == rest;
      StandsSplit(Encode(first, depth), EncodeAll(rest, depth), data, pos);
    }
  }

  /** Skipping succeeds exactly on encodings of admissible items, and then advances by
      exactly the encoded length; in particular it never leaves the data. */
  lemma SkipExactly(data: seq<Byte>, pos: nat, depth: nat, next: nat)
    requires depth <= MAX_DEPTH
    ensures SkipItem(data, pos, depth) == Some(next) <==>
            exists i :: Admissible(i, depth) && Stands(Encode(i, depth), data, pos) && next == pos + |Encode(i, depth)|
  {
    if SkipItem(data, pos, depth) == Some(next) {
      var i := SkippedWas(data, pos, depth);
    }
    if i :| Admissible(i, depth) && Stands(Encode(i, depth), data, pos) && next == pos + |Encode(i, depth)| {
      SkipsItem(i, depth, data, pos);
    }
  }

  // ---------------------------------------------------------------- attestation object

  /** The text `authData` in bytes. */
  const AUTH_DATA: seq<Byte> := [97, 117, 116, 104, 68, 97, 116, 97]

  const MAX_OBJECT := 0x10_0000
  const MAX_ENTRIES := 32
  const MAX_KEY := 128
  const MIN_AUTH_DATA := 37
  const MAX_AUTH_DATA := 0x1_0000

  /** `int(n)` of an unsigned 64-bit value. */
  function ToInt(n: nat): int {
    if n < TWO_63 then n else n - TWO_64
  }

  /** `readBytes(int(n))`. */
  function ReadBytes(data: seq<Byte>, pos: nat, n: nat): Option<seq<Byte>>
    requires pos <= |data|
  {
    var length := ToInt(n);
    if length < 0 || length > |data| - pos then None else Some(data[pos..pos + length])
  }

  /** A map key: its bytes and the position after it. */
  function ReadKey(data: seq<Byte>, pos: nat): Option<(seq<Byte>, nat)> {
    match ReadHead(data, pos)
    case None => None
    case Some(k) =>
      if k.major != TEXT_STRING || k.value > MAX_KEY then None
      else
        match ReadBytes(data, k.next, k.value)
        case None => None
        case Some(key) => Some((key, k.next + k.value))
  }

  /** The byte string expected under authData, and the position after it. */
  function ReadAuthData(data: seq<Byte>, pos: nat): Option<(seq<Byte>, nat)> {
    match ReadHead(data, pos)
    case None => None
    case Some(v) =>
      if v.major != BYTE_STRING || v.value < MIN_AUTH_DATA || v.value > MAX_AUTH_DATA then None
      else
        match ReadBytes(data, v.next, v.value)
        case None => None
        case Some(bytes) => Some((bytes, v.next + v.value))
  }

  /** The loop over map entries: the authData found, and the position after the map. */
  function ReadEntries(data: seq<Byte>, pos: nat, count: nat,
      found: Option<seq<Byte>>): Option<(Option<seq<Byte>>, nat)>
    decreases count
  {
    if count == 0 then Some((found, pos))
    else
      match ReadKey(data, pos)
      case None => None
      case Some((key, at)) =>
        if key == AUTH_DATA then
          if found.Some? then None
          else
            match ReadAuthData(data, at)
            case None => None
            case Some((bytes, next)) => ReadEntries(data, next, count - 1, Some(bytes))
        else
          match SkipItem(data, at, 0)
          case None => None
          case Some(next) => ReadEntries(data, next, count - 1, found)
  }

  /** `ExtractAttestationAuthData`. */
  function ExtractAuthData(data: seq<Byte>): Option<seq<Byte>> {
    if data == [] || |data| > MAX_OBJECT then None
    else
      match ReadHead(data, 0)
      case None => None
      case Some(h) =>
        if h.major != MAP || h.value > MAX_ENTRIES then None
        else
          match ReadEntries(data, h.next, h.value, None)
          case None => None
          case Some((found, pos)) => if pos == |data| then found else None
  }

  datatype Entry = Entry(keyWidth: Width, key: seq<Byte>, value: Item)

  /** An entry within the reader's bounds; the authData entry holds a byte string. */
  predicate Acceptable(e: Entry) {
    && e.keyWidth.Fits(|e.key|) && |e.key| <= MAX_KEY && Admissible(e.value, 0)
    && (e.key == AUTH_DATA ==>
          e.value.String? && e.value.major == BYTE_STRING && MIN_AUTH_DATA <= |e.value.bytes| <= MAX_AUTH_DATA)
  }

  function EncodeEntry(e: Entry): seq<Byte>
    requires Acceptable(e)
  {
    Header(TEXT_STRING, e.keyWidth, |e.key|) + (e.key + Encode(e.value, 0))
  }

  predicate AllAcceptable(entries: seq<Entry>) {
    entries == [] || (Acceptable(entries[0]) && AllAcceptable(entries[1..]))
  }

  function EncodeEntries(entries: seq<Entry>): seq<Byte>
    requires AllAcceptable(entries)
  {
    if entries == [] then [] else EncodeEntry(entries[0]) + EncodeEntries(entries[1..])
  }

  /** The authData among the entries, after `found`; `None` if there are two. */
  function Collect(entries: seq<Entry>, found: Option<seq<Byte>>): Option<Option<seq<Byte>>>
    requires AllAcceptable(entries)
  {
    if entries == [] then Some(found)
    else if entries[0].key != AUTH_DATA then Collect(entries[1..], found)
    else if found.Some? then None
    else Collect(entries[1..], Some(entries[0].value.bytes))
  }

  lemma EntryStands(e: Entry, data: seq<Byte>, pos: nat)
    requires Acceptable(e)
    ensures Stands(EncodeEntry(e), data, pos) <==>
            && Stands(Header(TEXT_STRING, e.keyWidth, |e.key|), data, pos)
            && Stands(e.key, data, pos + 1 + e.keyWidth.Bytes())
            && Stands(Encode(e.value, 0), data, pos + 1 + e.keyWidth.Bytes() + |e.key|)
  {
    hide Stands, Encode, Admissible;
    StandsSplit(Header(TEXT_STRING, e.keyWidth, |e.key|), e.key + Encode(e.value, 0), data, pos);
    StandsSplit(e.key, Encode(e.value, 0), data, pos + 1 + e.keyWidth.Bytes());
  }

  lemma ReadsKey(e: Entry, data: seq<Byte>, pos: nat)
    requires Acceptable(e) && Stands(Header(TEXT_STRING, e.keyWidth, |e.key|), data, pos)
    requires Stands(e.key, data, pos + 1 + e.keyWidth.Bytes())
    ensures ReadKey(data, pos) == Some((e.key, pos + 1 + e.keyWidth.Bytes() + |e.key|))
  {
    ReadsHeader(TEXT_STRING, e.keyWidth, |e.key|, data, pos);
  }

  lemma ReadsAuthData(i: Item, data: seq<Byte>, pos: nat)
    requires Admissible(i, 0) && i.String? && i.major == BYTE_STRING && MIN_AUTH_DATA <= |i.bytes| <= MAX_AUTH_DATA
    requires Stands(Encode(i, 0), data, pos)
    ensures ReadAuthData(data, pos) == Some((i.bytes, pos + |Encode(i, 0)|))
  {
    StandsSplit(Header(BYTE_STRING, i.width, |i.bytes|), i.bytes, data, pos);
    ReadsHeader(BYTE_STRING, i.width, |i.bytes|, data, pos);
  }

  /** One entry is read for what it is. */
  lemma ReadsEntry(e: Entry, count: nat, data: seq<Byte>, pos: nat, found: Option<seq<Byte>>)
    requires Acceptable(e) && Stands(EncodeEntry(e), data, pos) && count > 0
    ensures ReadEntries(data, pos, count, found) ==
            if e.key != AUTH_DATA then ReadEntries(data, pos + |EncodeEntry(e)|, count - 1, found)
            else if found.Some? then None
            else ReadEntries(data, pos + |EncodeEntry(e)|, count - 1, Some(e.value.bytes))
  {
    hide Stands, ReadKey, ReadAuthData, SkipItem, Encode, Admissible;
    EntryStands(e, data, pos);
    ReadsKey(e, data, pos);
    var at := pos + 1 + e.keyWidth.Bytes() + |e.key|;
    assert at + |Encode(e.value, 0)| == pos + |EncodeEntry(e)|;
    if e.key == AUTH_DATA {
      ReadsAuthData(e.value, data, at);
    } else {
      SkipsItem(e.value, 0, data, at);
    }
  }

  lemma {:induction false} ReadsEntries(entries: seq<Entry>, data: seq<Byte>, pos: nat, found: Option<seq<Byte>>)
    requires AllAcceptable(entries) && Stands(EncodeEntries(entries), data, pos)
    ensures ReadEntries(data, pos, |entries|, found) ==
            match Collect(entries, found)
            case None => None
            case Some(result) => Some((result, pos + |EncodeEntries(entries)|))
  {
    hide Stands, ReadKey, ReadAuthData, SkipItem, Acceptable, EncodeEntry;
    if entries != [] {
      var e, rest := entries[0], entries[1..];
      StandsSplit(EncodeEntry(e), EncodeEntries(rest), data, pos);
      ReadsEntry(e, |entries|, data, pos, found);
      if e.key != AUTH_DATA {
        ReadsEntries(rest, data, pos + |EncodeEntry(e)|, found);
      } else if found.None? {
        AuthEntryIsString(e);
        ReadsEntries(rest, data, pos + |EncodeEntry(e)|, Some(e.value.bytes));
      }
    }
  }

  lemma AuthEntryIsString(e: Entry)
    requires Acceptable(e) && e.key == AUTH_DATA
    ensures e.value.String?
  {
  }

  lemma AuthDataWas(data: seq<Byte>, pos: nat) returns (i: Item)
    requires ReadAuthData(data, pos).Some?
    ensures Admissible(i, 0) && i.String? && i.major == BYTE_STRING && MIN_AUTH_DATA <= |i.bytes| <= MAX_AUTH_DATA
    ensures Stands(Encode(i, 0), data, pos)
  {
    var v := ReadHead(data, pos).value;
    var w := ReadHeaderWas(data, pos);
    var bytes := data[v.next..v.next + v.value];
    i := String(BYTE_STRING, w, bytes);
    StandsSplit(Header(BYTE_STRING, w, v.value), bytes, data, pos);
  }

  /** Whatever the loop reads was the encoding of acceptable entries. */
  lemma EntryWas(data: seq<Byte>, pos: nat, count: nat, found: Option<seq<Byte>>) returns (e: Entry)
    requires count > 0 && ReadEntries(data, pos, count, found).Some?
    ensures Acceptable(e) && Stands(EncodeEntry(e), data, pos)
  {
    hide SkipItem, ReadAuthData, Encode, Admissible, Header;
    var k := ReadHead(data, pos).value;
    var keyWidth := ReadHeaderWas(data, pos);
    var (key, at) := ReadKey(data, pos).value;
    var item: Item;
    if key == AUTH_DATA {
      item := AuthDataWas(data, at);
    } else {
      item := SkippedWas(data, at, 0);
    }
    e := Entry(keyWidth, key, item);
    EntryStands(e, data, pos);
  }

  lemma {:induction false} EntriesWere(data: seq<Byte>, pos: nat, count: nat, found: Option<seq<Byte>>)
      returns (entries: seq<Entry>)
    requires pos <= |data| && ReadEntries(data, pos, count, found).Some?
    ensures |entries| == count && AllAcceptable(entries) && Stands(EncodeEntries(entries), data, pos)
    decreases count
  {
    hide ReadKey, ReadAuthData, SkipItem, Acceptable, EncodeEntry;
    entries := [];
    if count > 0 {
      var e := EntryWas(data, pos, count, found);
      ReadsEntry(e, count, data, pos, found);
      if e.key == AUTH_DATA {
        AuthEntryIsString(e);
      }
      var rest := EntriesWere(data, pos + |EncodeEntry(e)|, count - 1,
          if e.key == AUTH_DATA then Some(e.value.bytes) else found);
      entries := [e] + rest;
      assert entries[1..] == rest;
      StandsSplit(EncodeEntry(e), EncodeEntries(rest), data, pos);
    }
  }

  /** The whole object: a definite-length map of acceptable entries and nothing else. */
  ghost predicate Encodes(data: seq<Byte>, w: Width, entries: seq<Entry>) {
    w.Fits(|entries|) && |entries| <= MAX_ENTRIES && AllAcceptable(entries) &&
    data == Header(MAP, w, |entries|) + EncodeEntries(entries)
  }

  /** Exactly one entry is named authData, and it holds `auth`. */
  ghost predicate OneAuthData(entries: seq<Entry>, auth: seq<Byte>) {
    exists i | 0 <= i < |entries| ::
      && entries[i].key == AUTH_DATA && entries[i].value.String? && entries[i].value.bytes == auth
      && forall j | 0 <= j < |entries| && j != i :: entries[j].key != AUTH_DATA
  }

  lemma {:induction false} CollectsNone(entries: seq<Entry>, auth: seq<Byte>, result: Option<seq<Byte>>)
    requires AllAcceptable(entries)
    ensures Collect(entries, Some(auth)) == Some(result) <==>
            result == Some(auth) && forall j | 0 <= j < |entries| :: entries[j].key != AUTH_DATA
  {
    if entries != [] {
      CollectsNone(entries[1..], auth, result);
    }
  }

  lemma {:induction false} CollectsOne(entries: seq<Entry>, auth: seq<Byte>)
    requires AllAcceptable(entries)
    ensures Collect(entries, None) == Some(Some(auth)) <==> OneAuthData(entries, auth)
  {
    if entries != [] {
      var rest := entries[1..];
      CollectsOne(rest, auth);
      if entries[0].key == AUTH_DATA {
        CollectsNone(rest, entries[0].value.bytes, Some(auth));
        if OneAuthData(entries, auth) {
          assert entries[0].value.bytes == auth;
        }
      } else {
        if OneAuthData(rest, auth) {
          var i :| 0 <= i < |rest| && rest[i].key == AUTH_DATA && rest[i].value.String? &&
              rest[i].value.bytes == auth &&
                   forall j | 0 <= j < |rest| && j != i :: rest[j].key != AUTH_DATA;
          assert entries[i + 1].key == AUTH_DATA;
        }
        if OneAuthData(entries, auth) {
          var i :| 0 <= i < |entries| && entries[i].key == AUTH_DATA && entries[i].value.String? &&
              entries[i].value.bytes == auth &&
                   forall j | 0 <= j < |entries| && j != i :: entries[j].key != AUTH_DATA;
          assert rest[i - 1].key == AUTH_DATA;
        }
      }
    }
  }

  lemma ReadsObject(data: seq<Byte>, w: Width, entries: seq<Entry>, auth: seq<Byte>)
    requires Encodes(data, w, entries) && OneAuthData(entries, auth) && |data| <= MAX_OBJECT
    ensures ExtractAuthData(data) == Some(auth)
  {
    hide ReadEntries, Collect, OneAuthData;
    assert Stands(Header(MAP, w, |entries|) + EncodeEntries(entries), data, 0) by { assert data[0..|data|] == data; }
    StandsSplit(Header(MAP, w, |entries|), EncodeEntries(entries), data, 0);
    ReadsHeader(MAP, w, |entries|, data, 0);
    ReadsEntries(entries, data, 1 + w.Bytes(), None);
    CollectsOne(entries, auth);
  }

  lemma ObjectWas(data: seq<Byte>, auth: seq<Byte>) returns (w: Width, entries: seq<Entry>)
    requires ExtractAuthData(data) == Some(auth)
    ensures Encodes(data, w, entries) && OneAuthData(entries, auth)
  {
    hide ReadEntries, Collect, OneAuthData, AllAcceptable, EncodeEntries;
    var h := ReadHead(data, 0).value;
    w := ReadHeaderWas(data, 0);
    entries := EntriesWere(data, h.next, h.value, None);
    ReadsEntries(entries, data, h.next, None);
    CollectsOne(entries, auth);
    StandsSplit(Header(MAP, w, |entries|), EncodeEntries(entries), data, 0);
    assert data[0..|data|] == data;
  }

  /** The attestation reader is exact: it returns `auth` if and only if the input is
      the encoding of a bounded map with exactly one authData entry, holding `auth`. */
  lemma ExtractsExactly(data: seq<Byte>, auth: seq<Byte>)
    ensures ExtractAuthData(data) == Some(auth) <==>
            |data| <= MAX_OBJECT && exists w, entries :: Encodes(data, w, entries) && OneAuthData(entries, auth)
  {
    hide Encodes, OneAuthData, ReadEntries;
    if ExtractAuthData(data) == Some(auth) {
      var w, entries := ObjectWas(data, auth);
    }
    if |data| <= MAX_OBJECT && exists w, entries :: Encodes(data, w, entries) && OneAuthData(entries, auth) {
      var w, entries :| Encodes(data, w, entries) && OneAuthData(entries, auth);
      ReadsObject(data, w, entries, auth);
    }
  }

  /** The limits do refuse well-formed items: here an array of 1025 zeros. */
  lemma LargeArrayIsRefused(zeros: seq<Item>, data: seq<Byte>)
    requires |zeros| == MAX_COUNT + 1 && forall i | 0 <= i < |zeros| :: zeros[i] == Simple(0, Direct, 0)
    requires Stands(Header(ARRAY, Two, MAX_COUNT + 1), data, 0)
    ensures AllAdmissible(zeros, 1) && Two.Fits(Count(ARRAY, zeros)) && SkipItem(data, 0, 0) == None
  {
    hide Header, ReadHead;
    ZerosAreAdmissible(zeros);
    ReadsHeader(ARRAY, Two, MAX_COUNT + 1, data, 0);
  }

  lemma {:induction false} ZerosAreAdmissible(zeros: seq<Item>)
    requires forall i | 0 <= i < |zeros| :: zeros[i] == Simple(0, Direct, 0)
    ensures AllAdmissible(zeros, 1)
  {
    if zeros != [] {
      ZerosAreAdmissible(zeros[1..]);
    }
  }

  // ---------------------------------------------------------------- the bytes of RFC 8949

  /** The argument of a header, byte by byte (section 3 of RFC 8949). */
  lemma ArgumentByBytes(data: seq<Byte>, pos: nat)
    requires pos + 9 <= |data|
    ensures var info, b := data[pos] % 32, data[pos + 1..pos + 9];
            ReadHead(data, pos) ==
            if info < 24 then Some(Head(data[pos] / 32, info, pos + 1))
            else if info == 24 then Some(Head(data[pos] / 32, b[0], pos + 2))
            else if info == 25 then Some(Head(data[pos] / 32, TwoBytes(b[0], b[1]), pos + 3))
            else if info == 26 then
              Some(Head(data[pos] / 32, 0x1_0000 * TwoBytes(b[0], b[1]) + TwoBytes(b[2], b[3]), pos + 5))
            else if info == 27 then
              Some(Head(data[pos] / 32, 0x1_0000_0000_0000 * TwoBytes(b[0], b[1]) + 0x1_0000_0000 * TwoBytes(b[2],
                  b[3]) +
                                        0x1_0000 * TwoBytes(b[4], b[5]) + TwoBytes(b[6], b[7]), pos + 9))
            else None
  {
    hide Number;
    var b := data[pos + 1..pos + 9];
    assert data[pos + 1..pos + 2] == b[..1] && data[pos + 1..pos + 3] == b[..2] && data[pos + 1..pos + 5] == b[..4];
    assert b[..8] == b;
    NumberPrefix(b, 0);
    NumberPrefix(b, 1);
    NumberPrefix(b, 2);
    NumberPrefix(b, 3);
    NumberPrefix(b, 4);
    NumberPrefix(b, 5);
    NumberPrefix(b, 6);
    NumberPrefix(b, 7);
    NumberOfNothing();
    assert b[..0] == [];
  }

  function TwoBytes(high: int, low: int): int {
    0x100 * high + low
  }

  lemma NumberPrefix(b: seq<Byte>, n: nat)
    requires n < |b|
    ensures Number(b[..n + 1]) == 256 * Number(b[..n]) + b[n]
  {
    assert b[..n + 1][..n] == b[..n];
  }

  lemma NumberOfNothing()
    ensures Number([]) == 0
  {
  }

  /** A header that is cut off is refused. */
  lemma ShortHeadersAreRefused(data: seq<Byte>, pos: nat)
    ensures pos >= |data| ==> ReadHead(data, pos) == None
    ensures pos < |data| ==>
              var info := data[pos] % 32;
              (ReadHead(data, pos) == None <==>
                info >= 28 || pos + 1 + (if info == 27 then 8 else if info == 26 then 4 else if info == 25 then 2
                                         else if info == 24 then 1 else 0) > |data|)
  {
  }

  /** What is skipped after each initial byte (section 3.1 of RFC 8949), within 16 levels and
      1024 elements. */
  lemma SkipsByInitialByte(data: seq<Byte>, pos: nat, depth: nat)
    requires pos < |data| && ReadHead(data, pos).Some? && depth <= 16
    ensures var b, n, next := data[pos], ReadHead(data, pos).value.value, ReadHead(data, pos).value.next;
            && (b < 0x40 || b >= 0xE0 ==> SkipItem(data, pos, depth) == Some(next))
            && (0x40 <= b < 0x80 ==>
                 SkipItem(data, pos, depth) == if next + n <= |data| then Some(next + n) else None)
            && (0x80 <= b < 0xA0 ==>
                 SkipItem(data, pos, depth) == if n <= 1024 then SkipMany(data, next, n, depth + 1) else None)
            && (0xA0 <= b < 0xC0 ==>
                 SkipItem(data, pos, depth) == if n <= 1024 then SkipMany(data, next, 2 * n, depth + 1) else None)
            && (0xC0 <= b < 0xE0 ==> SkipItem(data, pos, depth) == SkipItem(data, next, depth + 1))
    ensures SkipItem(data, pos, 17) == None
  {
    hide Number, SkipMany;
  }

  lemma ShortHead(data: seq<Byte>, pos: nat)
    requires pos < |data| && data[pos] % 32 < 24
    ensures ReadHead(data, pos) == Some(Head(data[pos] / 32, data[pos] % 32, pos + 1))
  {
  }

  /** The byte 0x58 and a length before as many bytes. */
  lemma ReadsAuthBytes(data: seq<Byte>, pos: nat, auth: seq<Byte>)
    requires 37 <= |auth| < 256 && Stands([0x58, |auth|] + auth, data, pos)
    ensures ReadAuthData(data, pos) == Some((auth, pos + 2 + |auth|))
  {
    StandsSplit([0x58, |auth|], auth, data, pos);
    assert data[pos..pos + 2] == [0x58, |auth|];
    assert data[pos] == 0x58 && data[pos + 1] == |auth|;
    assert data[pos + 1..pos + 2] == [|auth|] && Number([|auth|]) == |auth| by { assert [|auth|][..0] == []; }
  }

  /** A byte from 0x60 on before as many bytes of text. */
  lemma ReadsShortKey(data: seq<Byte>, pos: nat, key: seq<Byte>)
    requires |key| < 24 && Stands(key, data, pos + 1) && data[pos] == 0x60 + |key|
    ensures ReadKey(data, pos) == Some((key, pos + 1 + |key|))
  {
  }

  lemma ReadsOtherEntry(data: seq<Byte>, pos: nat, key: seq<Byte>, next: nat, count: nat)
    requires |key| < 24 && Stands(key, data, pos + 1) && data[pos] == 0x60 + |key|
    requires key != AUTH_DATA && SkipItem(data, pos + 1 + |key|, 0) == Some(next)
    ensures ReadEntries(data, pos, count + 1, None) == ReadEntries(data, next, count, None)
  {
    hide ReadKey, SkipItem;
    ReadsShortKey(data, pos, key);
  }

  /** The last entry holds the authenticator data and ends the object. */
  lemma ReadsAuthEntry(data: seq<Byte>, pos: nat, auth: seq<Byte>)
    requires 37 <= |auth| < 256 && pos + 11 + |auth| == |data| && data[pos] == 0x68
    requires Stands([97, 117, 116, 104, 68, 97, 116, 97], data, pos + 1)
    requires Stands([0x58, |auth|] + auth, data, pos + 9)
    ensures ReadEntries(data, pos, 1, None) == Some((Some(auth), |data|))
  {
    hide ReadKey, ReadAuthData;
    ReadsShortKey(data, pos, [97, 117, 116, 104, 68, 97, 116, 97]);
    ReadsAuthBytes(data, pos + 9, auth);
    assert ReadEntries(data, pos, 1, None) == ReadEntries(data, |data|, 0, Some(auth));
  }

  /** The attestation object with nothing but authenticator data. */
  lemma ReadsBareAttestation(auth: seq<Byte>)
    requires 37 <= |auth| < 256
    ensures ExtractAuthData([0xA1, 0x68, 97, 117, 116, 104, 68, 97, 116, 97, 0x58, |auth|] + auth) == Some(auth)
  {
    hide ReadEntries;
    var data: seq<Byte> := [0xA1, 0x68, 97, 117, 116, 104, 68, 97, 116, 97, 0x58, |auth|] + auth;
    ShortHead(data, 0);
    assert data[10..] == [0x58, |auth|] + auth;
    assert data[2..10] == [97, 117, 116, 104, 68, 97, 116, 97];
    ReadsAuthEntry(data, 1, auth);
  }

  /** The entries `fmt: "none"` and `attStmt: {}`. */
  const FMT_NONE: seq<Byte> := [0x63, 102, 109, 116, 0x64, 110, 111, 110, 101]
  const STMT_EMPTY: seq<Byte> := [0x67, 97, 116, 116, 83, 116, 109, 116, 0xA0]

  lemma StandsWithin(bytes: seq<Byte>, data: seq<Byte>, pos: nat, i: nat, j: nat)
    requires Stands(bytes, data, pos) && i <= j <= |bytes|
    ensures Stands(bytes[i..j], data, pos + i)
  {
    assert bytes == bytes[..i] + (bytes[i..j] + bytes[j..]);
    StandsSplit(bytes[..i], bytes[i..j] + bytes[j..], data, pos);
    StandsSplit(bytes[i..j], bytes[j..], data, pos + i);
  }

  lemma ReadsFmtNone(data: seq<Byte>, pos: nat, count: nat)
    requires Stands(FMT_NONE, data, pos)
    ensures ReadEntries(data, pos, count + 1, None) == ReadEntries(data, pos + 9, count, None)
  {
    hide ReadEntries, SkipItem, ReadHead;
    StandsWithin(FMT_NONE, data, pos, 1, 4);
    assert FMT_NONE[1..4] == [102, 109, 116];
    assert data[pos] == 0x63 && data[pos + 4] == 0x64;
    SkipsShortText(data, pos + 4);
    ReadsOtherEntry(data, pos, [102, 109, 116], pos + 9, count);
  }

  lemma ReadsStmtEmpty(data: seq<Byte>, pos: nat, count: nat)
    requires Stands(STMT_EMPTY, data, pos)
    ensures ReadEntries(data, pos, count + 1, None) == ReadEntries(data, pos + 9, count, None)
  {
    hide ReadEntries, SkipItem, ReadHead;
    StandsWithin(STMT_EMPTY, data, pos, 1, 8);
    assert STMT_EMPTY[1..8] == [97, 116, 116, 83, 116, 109, 116];
    assert data[pos] == 0x67 && data[pos + 8] == 0xA0;
    SkipsEmptyMap(data, pos + 8);
    ReadsOtherEntry(data, pos, [97, 116, 116, 83, 116, 109, 116], pos + 9, count);
  }

  /** The object of an authenticator without attestation. */
  lemma ReadsNoneAttestation(auth: seq<Byte>)
    requires 37 <= |auth| < 256
    ensures ExtractAuthData([0xA3] + FMT_NONE + STMT_EMPTY + [0x68, 97, 117, 116, 104, 68, 97, 116, 97] +
                            ([0x58, |auth|] + auth)) == Some(auth)
  {
    hide ReadEntries, SkipItem;
    var head: seq<Byte>, key: seq<Byte>, value := [0xA3], [0x68, 97, 117, 116, 104, 68, 97, 116, 97],
        [0x58, |auth|] + auth;
    var data := head + FMT_NONE + STMT_EMPTY + key + value;
    ShortHead(data, 0);
    assert Stands(FMT_NONE, data, 1) && Stands(STMT_EMPTY, data, 10) && Stands(key, data, 19) &&
        Stands(value, data, 28);
    ReadsFmtNone(data, 1, 2);
    ReadsStmtEmpty(data, 10, 1);
    StandsWithin(key, data, 19, 1, 9);
    assert key[1..9] == [97, 117, 116, 104, 68, 97, 116, 97];
    ReadsAuthEntry(data, 19, auth);
  }

  lemma SkipsShortText(data: seq<Byte>, pos: nat)
    requires pos < |data| && 0x60 <= data[pos] < 0x78 && pos + 1 + (data[pos] - 0x60) <= |data|
    ensures SkipItem(data, pos, 0) == Some(pos + 1 + (data[pos] - 0x60))
  {
    ShortHead(data, pos);
    SkipsByInitialByte(data, pos, 0);
  }

  lemma SkipsEmptyMap(data: seq<Byte>, pos: nat)
    requires pos < |data| && data[pos] == 0xA0
    ensures SkipItem(data, pos, 0) == Some(pos + 1)
  {
    ShortHead(data, pos);
    SkipsByInitialByte(data, pos, 0);
  }
}
