/** COSE key maps: CBOR maps from integers to integers, byte strings and texts. */
module CoseMap {
  import opened Text
  import opened Cbor

  datatype Value = Integer(n: int) | Bytes(bytes: seq<Byte>) | Chars(bytes: seq<Byte>)

  const MAX_PAIRS := 64

  predicate InInt64(n: int) {
    -TWO_63 <= n < TWO_63
  }

  /** The integer a header of major 0 or 1 stands for. */
  function IntegerOf(major: nat, value: nat): int {
    if major == 0 then value else -1 - value
  }

  /** A key or an integer value: `None` outside the signed 64-bit range. */
  function ReadInteger(h: Head): Option<int> {
    if (h.major == 0 || h.major == 1) && h.value < TWO_63 then Some(IntegerOf(h.major, h.value)) else None
  }

  function ReadValue(data: seq<Byte>, pos: nat): Option<(Value, nat)> {
    match ReadHead(data, pos)
    case None => None
    case Some(v) =>
      if v.major == 0 || v.major == 1 then
        match ReadInteger(v)
        case None => None
        case Some(n) => Some((Integer(n), v.next))
      else if v.major == BYTE_STRING || v.major == TEXT_STRING then
        match ReadBytes(data, v.next, v.value)
        case None => None
        case Some(bytes) => Some((if v.major == BYTE_STRING then Bytes(bytes) else Chars(bytes), v.next + |bytes|))
      else None
  }

  function ReadPairs(data: seq<Byte>, pos: nat, count: nat, read: map<int, Value>): Option<map<int, Value>>
    decreases count
  {
    if count == 0 then Some(read)
    else
      match ReadHead(data, pos)
      case None => None
      case Some(k) =>
        match ReadInteger(k)
        case None => None
        case Some(key) =>
          if key in read then None
          else
            match ReadValue(data, k.next)
            case None => None
            case Some((value, next)) => ReadPairs(data, next, count - 1, read[key := value])
  }

  /** `parseCBORMap`. What follows the map is not looked at. */
  function ParseMap(data: seq<Byte>): Option<map<int, Value>> {
    match ReadHead(data, 0)
    case None => None
    case Some(h) => if h.major != MAP || h.value > MAX_PAIRS then None else ReadPairs(data, h.next, h.value, map[])
  }

  // ---------------------------------------------------------------- the encoder

  /** One pair, with the header widths its encoder chose. */
  datatype Pair = Pair(keyWidth: Width, key: int, width: Width, value: Value)

  function Argument(n: int): nat {
    if n >= 0 then n else -1 - n
  }

  function EncodeInteger(w: Width, n: int): seq<Byte>
    requires w.Fits(Argument(n))
  {
    Header(if n >= 0 then 0 else 1, w, Argument(n))
  }

  predicate EncodableValue(w: Width, v: Value) {
    match v
    case Integer(n) => InInt64(n) && w.Fits(Argument(n))
    case Bytes(bytes) => |bytes| < TWO_63 && w.Fits(|bytes|)
    case Chars(bytes) => |bytes| < TWO_63 && w.Fits(|bytes|)
  }

  predicate Encodable(p: Pair) {
    InInt64(p.key) && p.keyWidth.Fits(Argument(p.key)) && EncodableValue(p.width, p.value)
  }

  function EncodeValue(w: Width, v: Value): seq<Byte>
    requires EncodableValue(w, v)
  {
    match v
    case Integer(n) => EncodeInteger(w, n)
    case Bytes(bytes) => Header(BYTE_STRING, w, |bytes|) + bytes
    case Chars(bytes) => Header(TEXT_STRING, w, |bytes|) + bytes
  }

  function EncodePair(p: Pair): seq<Byte>
    requires Encodable(p)
  {
    EncodeInteger(p.keyWidth, p.key) + EncodeValue(p.width, p.value)
  }

  predicate AllEncodable(pairs: seq<Pair>) {
    pairs == [] || (Encodable(pairs[0]) && AllEncodable(pairs[1..]))
  }

  function EncodePairs(pairs: seq<Pair>): seq<Byte>
    requires AllEncodable(pairs)
  {
    if pairs == [] then [] else EncodePair(pairs[0]) + EncodePairs(pairs[1..])
  }

  /** The mapping that a list of pairs denotes; `None` if a key repeats. */
  function Denotes(pairs: seq<Pair>, read: map<int, Value>): Option<map<int, Value>> {
    if pairs == [] then Some(read)
    else if pairs[0].key in read then None
    else Denotes(pairs[1..], read[pairs[0].key := pairs[0].value])
  }

  ghost predicate EncodesMap(data: seq<Byte>, w: Width, pairs: seq<Pair>) {
    w.Fits(|pairs|) && |pairs| <= MAX_PAIRS && AllEncodable(pairs) &&
        Stands(Header(MAP, w, |pairs|) + EncodePairs(pairs), data, 0)
  }

  // ---------------------------------------------------------------- the parser inverts the encoder

  lemma ReadsValue(p: Pair, data: seq<Byte>, pos: nat)
    requires Encodable(p) && Stands(EncodeValue(p.width, p.value), data, pos)
    ensures ReadValue(data, pos) == Some((p.value, pos + |EncodeValue(p.width, p.value)|))
  {
    hide ReadHead;
    match p.value {
      case Integer(n) => ReadsHeader(if n >= 0 then 0 else 1, p.width, Argument(n), data, pos);
      case Bytes(bytes) =>
        StandsSplit(Header(BYTE_STRING, p.width, |bytes|), bytes, data, pos);
        ReadsHeader(BYTE_STRING, p.width, |bytes|, data, pos);
      case Chars(bytes) =>
        StandsSplit(Header(TEXT_STRING, p.width, |bytes|), bytes, data, pos);
        ReadsHeader(TEXT_STRING, p.width, |bytes|, data, pos);
    }
  }

  lemma ReadsPair(p: Pair, data: seq<Byte>, pos: nat, count: nat, read: map<int, Value>)
    requires Encodable(p) && Stands(EncodePair(p), data, pos) && count > 0
    ensures ReadPairs(data, pos, count, read) ==
            if p.key in read then None else ReadPairs(data, pos + |EncodePair(p)|, count - 1, read[p.key := p.value])
  {
    hide Stands, ReadValue, EncodeValue;
    StandsSplit(EncodeInteger(p.keyWidth, p.key), EncodeValue(p.width, p.value), data, pos);
    ReadsHeader(if p.key >= 0 then 0 else 1, p.keyWidth, Argument(p.key), data, pos);
    ReadsValue(p, data, pos + |EncodeInteger(p.keyWidth, p.key)|);
  }

  lemma {:induction false} ReadsPairs(pairs: seq<Pair>, data: seq<Byte>, pos: nat, read: map<int, Value>)
    requires AllEncodable(pairs) && Stands(EncodePairs(pairs), data, pos)
    ensures ReadPairs(data, pos, |pairs|, read) == Denotes(pairs, read)
  {
    hide Stands, EncodePair, Encodable, ReadValue, ReadHead, ReadInteger;
    if pairs != [] {
      StandsSplit(EncodePair(pairs[0]), EncodePairs(pairs[1..]), data, pos);
      ReadsPair(pairs[0], data, pos, |pairs|, read);
      if pairs[0].key !in read {
        ReadsPairs(pairs[1..], data, pos + |EncodePair(pairs[0])|, read[pairs[0].key := pairs[0].value]);
      }
    }
  }

  lemma IntegerWas(data: seq<Byte>, pos: nat) returns (w: Width)
    requires ReadHead(data, pos).Some? && ReadInteger(ReadHead(data, pos).value).Some?
    ensures var n := ReadInteger(ReadHead(data, pos).value).value;
            && InInt64(n) && w.Fits(Argument(n))
            && Stands(EncodeInteger(w, n), data, pos)
            && |EncodeInteger(w, n)| == ReadHead(data, pos).value.next - pos
  {
    hide Stands, ReadHead;
    w := ReadHeaderWas(data, pos);
  }

  lemma ValueWas(data: seq<Byte>, pos: nat) returns (w: Width)
    requires |data| < TWO_63 && ReadValue(data, pos).Some?
    ensures var v := ReadValue(data, pos).value.0;
            EncodableValue(w, v) && Stands(EncodeValue(w, v), data, pos)
  {
    var h := ReadHead(data, pos).value;
    if h.major == 0 || h.major == 1 {
      w := IntegerWas(data, pos);
    } else {
      w := ReadHeaderWas(data, pos);
      var bytes := ReadValue(data, pos).value.0.bytes;
      assert h.value == |bytes| && Stands(bytes, data, h.next);
      StandsSplit(Header(h.major, w, h.value), bytes, data, pos);
    }
  }

  lemma PairWas(data: seq<Byte>, pos: nat, count: nat, read: map<int, Value>) returns (p: Pair)
    requires |data| < TWO_63 && count > 0 && ReadPairs(data, pos, count, read).Some?
    ensures Encodable(p) && Stands(EncodePair(p), data, pos)
  {
    hide Stands, ReadHead, ReadValue, ReadInteger, EncodeInteger, EncodeValue;
    var k := ReadHead(data, pos).value;
    var keyWidth := IntegerWas(data, pos);
    var width := ValueWas(data, k.next);
    p := Pair(keyWidth, ReadInteger(k).value, width, ReadValue(data, k.next).value.0);
    StandsSplit(EncodeInteger(keyWidth, p.key), EncodeValue(width, p.value), data, pos);
  }

  lemma {:induction false} PairsWere(data: seq<Byte>, pos: nat, count: nat, read: map<int, Value>)
      returns (pairs: seq<Pair>)
    requires |data| < TWO_63 && pos <= |data| && ReadPairs(data, pos, count, read).Some?
    ensures |pairs| == count && AllEncodable(pairs) && Stands(EncodePairs(pairs), data, pos)
    decreases count
  {
    hide EncodePair, Encodable, ReadValue, ReadHead, ReadInteger;
    pairs := [];
    if count > 0 {
      var p := PairWas(data, pos, count, read);
      ReadsPair(p, data, pos, count, read);
      var rest := PairsWere(data, pos + |EncodePair(p)|, count - 1, read[p.key := p.value]);
      pairs := [p] + rest;
      assert pairs[1..] == rest;
      StandsSplit(EncodePair(p), EncodePairs(rest), data, pos);
    }
  }

  /** The parser is exact: it returns `m` if and only if the data starts with the
      encoding of at most 64 pairs with distinct keys that denote `m`. */
  lemma ParsesExactly(data: seq<Byte>, m: map<int, Value>)
    requires |data| < TWO_63
    ensures ParseMap(data) == Some(m) <==>
            exists w, pairs :: EncodesMap(data, w, pairs) && Denotes(pairs, map[]) == Some(m)
  {
    hide ReadPairs, Denotes;
    if ParseMap(data) == Some(m) {
      var h := ReadHead(data, 0).value;
      var w := ReadHeaderWas(data, 0);
      var pairs := PairsWere(data, h.next, h.value, map[]);
      ReadsPairs(pairs, data, h.next, map[]);
      StandsSplit(Header(MAP, w, |pairs|), EncodePairs(pairs), data, 0);
      assert EncodesMap(data, w, pairs) && Denotes(pairs, map[]) == Some(m);
    }
    if exists w, pairs :: EncodesMap(data, w, pairs) && Denotes(pairs, map[]) == Some(m) {
      var w, pairs :| EncodesMap(data, w, pairs) && Denotes(pairs, map[]) == Some(m);
      MapIsRead(data, w, pairs);
    }
  }

  lemma MapIsRead(data: seq<Byte>, w: Width, pairs: seq<Pair>)
    requires EncodesMap(data, w, pairs)
    ensures ParseMap(data) == Denotes(pairs, map[])
  {
    hide ReadPairs, Denotes, Stands;
    StandsSplit(Header(MAP, w, |pairs|), EncodePairs(pairs), data, 0);
    ReadsHeader(MAP, w, |pairs|, data, 0);
    ReadsPairs(pairs, data, 1 + w.Bytes(), map[]);
  }

  /** A list of pairs denotes a map exactly when its keys are distinct, and the map then
      binds exactly the listed keys to the listed values. */
  lemma {:induction false} DenotesPairs(pairs: seq<Pair>, read: map<int, Value>)
    ensures Denotes(pairs, read).Some? <==>
            && (forall i | 0 <= i < |pairs| :: pairs[i].key !in read)
            && (forall i, j | 0 <= i < j < |pairs| :: pairs[i].key != pairs[j].key)
    ensures Denotes(pairs, read).Some? ==>
            var m := Denotes(pairs, read).value;
            && m.Keys == read.Keys + (set i | 0 <= i < |pairs| :: pairs[i].key)
            && (forall k | k in read :: m[k] == read[k])
            && (forall i | 0 <= i < |pairs| :: m[pairs[i].key] == pairs[i].value)
    decreases |pairs|
  {
    if pairs != [] {
      var rest, read' := pairs[1..], read[pairs[0].key := pairs[0].value];
      DenotesPairs(rest, read');
      assert forall i | 0 <= i < |rest| :: rest[i] == pairs[i + 1];
      assert forall i | 1 <= i < |pairs| :: pairs[i] == rest[i - 1];
    }
  }

  // ---------------------------------------------------------------- the bytes of a key

  lemma ReadsBytes32(data: seq<Byte>, pos: nat, bytes: seq<Byte>)
    requires |bytes| == 32 && Stands([0x58, 0x20] + bytes, data, pos)
    ensures ReadValue(data, pos) == Some((Bytes(bytes), pos + 34))
  {
    StandsSplit([0x58, 0x20], bytes, data, pos);
    assert data[pos..pos + 2] == [0x58, 0x20];
    assert data[pos] == 0x58 && data[pos + 1] == 0x20;
    assert data[pos + 1..pos + 2] == [0x20] && Number([0x20]) == 0x20 by { assert [0x20][..0] == []; }
  }

  function SmallInteger(b: int): int {
    if b < 0x20 then b else 0x1F - b
  }

  /** One byte below 0x18 is a small number, one from 0x20 a negative one. */
  lemma ReadsSmallInteger(data: seq<Byte>, pos: nat)
    requires pos < |data| && data[pos] % 32 < 24 && data[pos] < 0x40
    ensures ReadHead(data, pos).Some? && ReadHead(data, pos).value.next == pos + 1
    ensures ReadInteger(ReadHead(data, pos).value) == Some(SmallInteger(data[pos]))
    ensures ReadValue(data, pos) == Some((Integer(SmallInteger(data[pos])), pos + 1))
  {
  }

  /** The COSE key of an ES256 credential: kty 2, alg -7, crv 1 and the two coordinates. */
  lemma ReadsEs256Key(x: seq<Byte>, y: seq<Byte>)
    requires |x| == 32 && |y| == 32
    ensures ParseMap([0xA5, 0x01, 0x02, 0x03, 0x26, 0x20, 0x01, 0x21, 0x58, 0x20] + x + [0x22, 0x58, 0x20] + y) ==
            Some(map[1 := Integer(2), 3 := Integer(-7), -1 := Integer(1), -2 := Bytes(x), -3 := Bytes(y)])
  {
    hide ReadPairs;
    var data: seq<Byte> := [0xA5, 0x01, 0x02, 0x03, 0x26, 0x20, 0x01, 0x21, 0x58, 0x20] + x + [0x22, 0x58, 0x20] + y;
    ShortHead(data, 0);
    assert data[8..42] == [0x58, 0x20] + x && data[43..77] == [0x58, 0x20] + y && data[42] == 0x22;
    var m1: map<int, Value> := map[1 := Integer(2)];
    var m2 := m1[3 := Integer(-7)];
    var m3 := m2[-1 := Integer(1)];
    var m4 := m3[-2 := Bytes(x)];
    ReadsSmallPair(data, 1, 5, map[]);
    ReadsSmallPair(data, 3, 4, m1);
    ReadsSmallPair(data, 5, 3, m2);
    ReadsBytesPair(data, 7, 2, m3, x);
    ReadsBytesPair(data, 42, 1, m4, y);
    NoPairs(data, 77, m4[-3 := Bytes(y)]);
  }

  lemma NoPairs(data: seq<Byte>, pos: nat, read: map<int, Value>)
    ensures ReadPairs(data, pos, 0, read) == Some(read)
  {
  }

  lemma ReadsSmallPair(data: seq<Byte>, pos: nat, count: nat, read: map<int, Value>)
    requires pos + 1 < |data| && count > 0
    requires data[pos] % 32 < 24 && data[pos] < 0x40 && data[pos + 1] % 32 < 24 && data[pos + 1] < 0x40
    requires SmallInteger(data[pos]) !in read
    ensures ReadPairs(data, pos, count, read) ==
            ReadPairs(data, pos + 2, count - 1, read[SmallInteger(data[pos]) := Integer(SmallInteger(data[pos + 1]))])
  {
    hide ReadHead, ReadValue, ReadInteger;
    ReadsSmallInteger(data, pos);
    ReadsSmallInteger(data, pos + 1);
  }

  lemma ReadsBytesPair(data: seq<Byte>, pos: nat, count: nat, read: map<int, Value>, bytes: seq<Byte>)
    requires pos < |data| && count > 0 && data[pos] % 32 < 24 && data[pos] < 0x40
    requires |bytes| == 32 && Stands([0x58, 0x20] + bytes, data, pos + 1)
    requires SmallInteger(data[pos]) !in read
    ensures ReadPairs(data, pos, count, read) ==
            ReadPairs(data, pos + 35, count - 1, read[SmallInteger(data[pos]) := Bytes(bytes)])
  {
    hide ReadHead, ReadValue, ReadInteger;
    ReadsSmallInteger(data, pos);
    ReadsBytes32(data, pos + 1, bytes);
  }

  /** A text value stays a text. */
  lemma ReadsText(c: Byte)
    ensures ParseMap([0xA1, 0x01, 0x61, c]) == Some(map[1 := Chars([c])])
  {
    hide ReadHead, ReadInteger;
    var data: seq<Byte> := [0xA1, 0x01, 0x61, c];
    ShortHead(data, 0);
    ReadsSmallInteger(data, 1);
    ShortHead(data, 2);
    assert data[3..4] == [c];
    assert ReadPairs(data, 1, 1, map[]) == ReadPairs(data, 4, 0, map[1 := Chars([c])]);
  }
}
