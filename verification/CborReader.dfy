/** The reader itself: a cursor over the data, advanced step by step. */
module CborReading {
  import opened Text
  import opened Cbor
  import CoseMap

  class CborReader {
    const data: seq<Byte>
    var pos: nat

    constructor (data: seq<Byte>)
      ensures this.data == data && pos == 0
    {
      this.data := data;
      pos := 0;
    }

    /** `readHeader`: on success the cursor stands after the header. */
    method ReadHeader() returns (head: Option<Head>)
      requires pos <= |data|
      modifies this
      ensures head == ReadHead(data, old(pos))
      ensures pos <= |data| && (head.Some? ==> pos == head.value.next)
    {
      if pos >= |data| { return None; }
      var b := data[pos];
      pos := pos + 1;
      var major, info := b / 32, b % 32;
      if info < 24 {
        return Some(Head(major, info, pos));
      }
      var n := 0;
      if info == 24 { n := 1; }
      else if info == 25 { n := 2; }
      else if info == 26 { n := 4; }
      else if info == 27 { n := 8; }
      else { return None; }
      if pos + n > |data| { return None; }
      var v := Number(data[pos..pos + n]);
      pos := pos + n;
      return Some(Head(major, v, pos));
    }

    /** `readBytes` of a 64-bit length converted to `int`. */
    method Take(n: nat) returns (bytes: Option<seq<Byte>>)
      requires pos <= |data|
      modifies this
      ensures bytes == ReadBytes(data, old(pos), n)
      ensures pos <= |data| && pos == if bytes.Some? then old(pos) + |bytes.value| else old(pos)
    {
      var length := ToInt(n);
      if length < 0 || length > |data| - pos { return None; }
      bytes := Some(data[pos..pos + length]);
      pos := pos + length;
    }

    /** `skipValue`: recursive over nested items, the cursor moves past them. */
    method SkipValue(major: nat, value: nat, depth: nat) returns (ok: bool)
      requires pos <= |data| < TWO_63 && depth <= MAX_DEPTH + 1
      modifies this
      ensures ok <==> Skip(data, old(pos), major, value, depth).Some?
      ensures pos <= |data| && (ok ==> Skip(data, old(pos), major, value, depth) == Some(pos))
      decreases MAX_DEPTH + 1 - depth, 0
    {
      if depth > MAX_DEPTH { return false; }
      if major == 0 || major == 1 || major == 7 { return true; }
      if major == BYTE_STRING || major == TEXT_STRING {
        if value > |data| - pos { return false; }
        var bytes := Take(value);
        return bytes.Some?;
      }
      if major == ARRAY {
        if value > MAX_COUNT { return false; }
        ok := SkipChildren(value, depth + 1);
        return;
      }
      if major == MAP {
        if value > MAX_COUNT { return false; }
        ok := SkipChildren(2 * value, depth + 1);
        return;
      }
      if major == TAG {
        var head := ReadHeader();
        if head.None? { return false; }
        ok := SkipValue(head.value.major, head.value.value, depth + 1);
        return;
      }
      return false;
    }

    /** The loop over the elements of an array or the keys and values of a map. */
    method SkipChildren(count: nat, depth: nat) returns (ok: bool)
      requires pos <= |data| < TWO_63 && depth <= MAX_DEPTH + 1
      modifies this
      ensures ok <==> SkipMany(data, old(pos), count, depth).Some?
      ensures pos <= |data| && (ok ==> SkipMany(data, old(pos), count, depth) == Some(pos))
      decreases MAX_DEPTH + 1 - depth, 1
    {
      for i := 0 to count
        invariant pos <= |data|
        invariant SkipMany(data, old(pos), count, depth) == SkipMany(data, pos, count - i, depth)
      {
        var head := ReadHeader();
        if head.None? { return false; }
        var skipped := SkipValue(head.value.major, head.value.value, depth);
        if !skipped { return false; }
      }
      return true;
    }
  }

  /** A text key of bounded length. */
  method NextKey(r: CborReader) returns (key: Option<seq<Byte>>)
    requires r.pos <= |r.data|
    modifies r
    ensures r.pos <= |r.data|
    ensures ReadKey(r.data, old(r.pos)) == if key.Some? then Some((key.value, r.pos)) else None
  {
    var k := r.ReadHeader();
    if k.None? { return None; }
    if k.value.major != TEXT_STRING || k.value.value > MAX_KEY { return None; }
    key := r.Take(k.value.value);
  }

  /** The value under authData: a byte string of bounded length. */
  method NextAuthData(r: CborReader) returns (bytes: Option<seq<Byte>>)
    requires r.pos <= |r.data|
    modifies r
    ensures r.pos <= |r.data|
    ensures ReadAuthData(r.data, old(r.pos)) == if bytes.Some? then Some((bytes.value, r.pos)) else None
  {
    var v := r.ReadHeader();
    if v.None? { return None; }
    if v.value.major != BYTE_STRING || v.value.value < MIN_AUTH_DATA || v.value.value > MAX_AUTH_DATA { return None; }
    bytes := r.Take(v.value.value);
  }

  /** Any other value is skipped. */
  method SkipNext(r: CborReader) returns (ok: bool)
    requires r.pos <= |r.data| < TWO_63
    modifies r
    ensures r.pos <= |r.data|
    ensures SkipItem(r.data, old(r.pos), 0) == if ok then Some(r.pos) else None
  {
    var v := r.ReadHeader();
    if v.None? { return false; }
    ok := r.SkipValue(v.value.major, v.value.value, 0);
  }

  /** `ExtractAttestationAuthData`. */
  method ExtractAttestationAuthData(data: seq<Byte>) returns (result: Option<seq<Byte>>)
    ensures result == ExtractAuthData(data)
  {
    hide ReadHead, ReadKey, ReadAuthData, SkipItem;
    if data == [] || |data| > MAX_OBJECT { return None; }
    var r := new CborReader(data);
    var head := r.ReadHeader();
    if head.None? { return None; }
    if head.value.major != MAP || head.value.value > MAX_ENTRIES { return None; }
    var count, start := head.value.value, r.pos;
    var authData: Option<seq<Byte>> := None;
    for i := 0 to count
      invariant r.pos <= |r.data| && r.data == data
      invariant ReadEntries(data, start, count, None) == ReadEntries(data, r.pos, count - i, authData)
    {
      var key := NextKey(r);
      if key.None? { return None; }
      if key.value == AUTH_DATA {
        if authData.Some? { return None; }
        authData := NextAuthData(r);
        if authData.None? { return None; }
      } else {
        var skipped := SkipNext(r);
        if !skipped { return None; }
      }
    }
    if authData.None? { return None; }
    if r.pos != |data| { return None; }
    return authData;
  }

  /** An integer key. */
  method NextInteger(r: CborReader) returns (key: Option<int>)
    requires r.pos <= |r.data|
    modifies r
    ensures r.pos <= |r.data|
    ensures match ReadHead(r.data, old(r.pos))
            case None => key == None
            case Some(h) => key == CoseMap.ReadInteger(h) && (key.Some? ==> r.pos == h.next)
  {
    var k := r.ReadHeader();
    if k.None? { return None; }
    if k.value.major == 0 {
      if k.value.value >= TWO_63 { return None; }
      return Some(k.value.value);
    } else if k.value.major == 1 {
      if k.value.value >= TWO_63 { return None; }
      return Some(-1 - k.value.value);
    }
    return None;
  }

  /** An integer, byte string or text value. */
  method NextValue(r: CborReader) returns (value: Option<CoseMap.Value>)
    requires r.pos <= |r.data|
    modifies r
    ensures r.pos <= |r.data|
    ensures CoseMap.ReadValue(r.data, old(r.pos)) == if value.Some? then Some((value.value, r.pos)) else None
  {
    var v := r.ReadHeader();
    if v.None? { return None; }
    if v.value.major == 0 || v.value.major == 1 {
      if v.value.value >= TWO_63 { return None; }
      return Some(CoseMap.Integer(if v.value.major == 0 then v.value.value else -1 - v.value.value));
    }
    if v.value.major == BYTE_STRING || v.value.major == TEXT_STRING {
      var bytes := r.Take(v.value.value);
      if bytes.None? { return None; }
      return Some(if v.value.major == BYTE_STRING then CoseMap.Bytes(bytes.value) else CoseMap.Chars(bytes.value));
    }
    return None;
  }

  /** `parseCBORMap`. */
  method ParseCborMap(data: seq<Byte>) returns (result: Option<map<int, CoseMap.Value>>)
    ensures result == CoseMap.ParseMap(data)
  {
    hide CoseMap.ReadValue, CoseMap.ReadInteger;
    if data == [] { return None; }
    var r := new CborReader(data);
    var head := r.ReadHeader();
    if head.None? { return None; }
    if head.value.major != MAP || head.value.value > CoseMap.MAX_PAIRS { return None; }
    var count, start := head.value.value, r.pos;
    var read: map<int, CoseMap.Value> := map[];
    for i := 0 to count
      invariant r.pos <= |r.data| && r.data == data
      invariant CoseMap.ReadPairs(data, start, count, map[]) == CoseMap.ReadPairs(data, r.pos, count - i, read)
    {
      var key := NextInteger(r);
      if key.None? { return None; }
      if key.value in read { return None; }
      var value := NextValue(r);
      if value.None? { return None; }
      read := read[key.value := value.value];
    }
    return Some(read);
  }
}
