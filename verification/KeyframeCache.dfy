/** The keyframe cache file: its printer, its parser, and what damage the parser notices. */
module KeyframeCache {
  import opened Options
  import opened Bits
  import opened Crc32
  import opened ByteCodec

  const MAGIC: Bytes := [0x43, 0x50, 0x4B, 0x46, 0x43, 0x00, 0x01, 0x00]
  const U32_MAX: nat := 0xFFFF_FFFF

  datatype Key = Key(hash: Utf8, width: u32, height: u32, dpi: u32)

  datatype Entry = Entry(spsPps: Bytes, keyframe: Bytes)

  datatype Header = Header(key: Key, spsPpsLen: u32)

  datatype Error = NotFound | OutOfDate | InvalidFormat(reason: string) | InvalidHash

  // The format.

  function HeaderBytes(h: Header): (b: Bytes)
    ensures |b| == 20 + |h.key.hash|
  {
    Le(|h.key.hash|, 4) + h.key.hash
    + (Le(h.key.width, 4) + (Le(h.key.height, 4) + (Le(h.key.dpi, 4) + Le(h.spsPpsLen, 4))))
  }

  function Framed(header: Bytes, body: Bytes): (b: Bytes)
    ensures |b| == 20 + |header| + |body|
  {
    MAGIC + (Le(|header|, 4) + (Le(Crc(header), 4) + (Le(Crc(body), 4) + (header + body))))
  }

  /** What the 32-bit length fields can hold. */
  predicate Storable(k: Key, e: Entry) {
    |e.spsPps| <= U32_MAX && |k.hash| + 20 <= U32_MAX
  }

  function Encoded(k: Key, e: Entry): Bytes
    requires Storable(k, e)
  {
    Framed(HeaderBytes(Header(k, |e.spsPps|)), e.spsPps + e.keyframe)
  }

  /** The fields of a framed file. */
  ghost predicate FrameFields(b: Bytes, header: Bytes, body: Bytes) {
    && |b| >= 20 + |header| && b[..8] == MAGIC
    && Value(b[8..12]) == |header| && Value(b[12..16]) == Crc(header) && Value(b[16..20]) == Crc(body)
    && b[20..20 + |header|] == header && b[20 + |header|..] == body
  }

  lemma FramedReadBack(header: Bytes, body: Bytes)
    requires |header| <= U32_MAX
    ensures FrameFields(Framed(header, body), header, body)
  {
    hide Le, Crc;
    Le32(|header|);
    Le32(Crc(header));
    Le32(Crc(body));
    var b := Framed(header, body);
    assert b[8..12] == Le(|header|, 4);
    assert b[12..16] == Le(Crc(header), 4);
    assert b[16..20] == Le(Crc(body), 4);
  }

  lemma FrameDetermined(b: Bytes, header: Bytes, body: Bytes)
    requires FrameFields(b, header, body)
    ensures b == Framed(header, body) && |header| <= U32_MAX
  {
    hide Le, Value, Crc;
    LeOfValue(b[8..12]);
    LeOfValue(b[12..16]);
    LeOfValue(b[16..20]);
    ValueBound(b[8..12]);
    Cut(b, 0, 8); Cut(b, 8, 12); Cut(b, 12, 16); Cut(b, 16, 20); Cut(b, 20, 20 + |header|);
    assert b[0..] == b && b[0..8] == b[..8];
  }

  // The cursor.

  class Cursor {
    const buf: Bytes
    const usizeMax: nat
    var position: nat

    ghost predicate Valid()
      reads this
    {
      position <= |buf| <= usizeMax
    }

    ghost function Rest(): Bytes
      requires Valid()
      reads this
    {
      buf[position..]
    }

    constructor (buf: Bytes, usizeMax: nat)
      requires |buf| <= usizeMax
      ensures Valid() && Rest() == buf && this.buf == buf && position == 0
    {
      this.buf := buf;
      this.usizeMax := usizeMax;
      position := 0;
    }

    method Take(len: nat) returns (r: Result<Bytes, Error>)
      requires Valid()
      modifies this`position
      ensures Valid()
      ensures len <= |old(Rest())| ==> r == Ok(old(Rest())[..len]) && Rest() == old(Rest())[len..]
                                       && position == old(position) + len
      ensures len > |old(Rest())| ==>
                && Rest() == old(Rest())
                && r == Err(InvalidFormat(if old(position) + len > usizeMax then "length overflow" else "truncated data"))
    {
      if position + len > usizeMax {
        return Err(InvalidFormat("length overflow"));
      }
      var end := position + len;
      if end > |buf| {
        return Err(InvalidFormat("truncated data"));
      }
      assert buf[position..][..len] == buf[position..end] && buf[position..][len..] == buf[end..];
      r := Ok(buf[position..end]);
      position := end;
    }

    method ReadU32() returns (r: Result<u32, Error>)
      requires Valid()
      modifies this`position
      ensures Valid()
      ensures |old(Rest())| >= 4 ==> r.Ok? && r.value == Value(old(Rest())[..4]) && Rest() == old(Rest())[4..]
                                     && position == old(position) + 4
      ensures |old(Rest())| < 4 ==> r.Err? && r.error.InvalidFormat?
    {
      var bytes := Take(4);
      if bytes.Err? {
        return Err(bytes.error);
      }
      ValueBound(bytes.value);
      return Ok(Value(bytes.value));
    }
  }

  // The header.

  /** The fields of a header at the front of a text. */
  ghost predicate HeaderFields(text: Bytes, h: Header, tail: Bytes) {
    var n := |h.key.hash|;
    && |text| >= 20 + n
    && Value(text[..4]) == n && text[4..4 + n] == h.key.hash
    && Value(text[4 + n..8 + n]) == h.key.width
    && Value(text[8 + n..12 + n]) == h.key.height
    && Value(text[12 + n..16 + n]) == h.key.dpi
    && Value(text[16 + n..20 + n]) == h.spsPpsLen
    && text[20 + n..] == tail
  }

  /** Four-byte fields around a part of any length, taken apart again. */
  lemma Parts(a: Bytes, b: Bytes, c: Bytes, d: Bytes, e: Bytes, f: Bytes, g: Bytes)
    requires |a| == |c| == |d| == |e| == |f| == 4
    ensures var t, n := a + b + (c + (d + (e + f))) + g, |b|;
            && t[..4] == a && t[4..4 + n] == b && t[4 + n..8 + n] == c && t[8 + n..12 + n] == d
            && t[12 + n..16 + n] == e && t[16 + n..20 + n] == f && t[20 + n..] == g
  {
    var n := |b|;
    Regroup(a, b, c, d, e, f, g);
    var r5 := f + g;
    var r4 := e + r5;
    var r3 := d + r4;
    var r2 := c + r3;
    var t := a + (b + r2);
    Front(t, 0, a, b + r2); Front(t, 4, b, r2); Front(t, 4 + n, c, r3);
    Front(t, 8 + n, d, r4); Front(t, 12 + n, e, r5); Front(t, 16 + n, f, g);
  }

  /** What follows position `i` begins with `x`. */
  lemma Front(t: Bytes, i: nat, x: Bytes, rest: Bytes)
    requires i <= |t| && t[i..] == x + rest
    ensures i + |x| <= |t| && t[i..i + |x|] == x && t[i + |x|..] == rest
  {
    assert |t[i..]| == |x| + |rest|;
    assert t[i..][..|x|] == t[i..i + |x|] && t[i..][|x|..] == t[i + |x|..];
  }

  lemma HeaderReadBack(h: Header, tail: Bytes)
    requires |h.key.hash| <= U32_MAX
    ensures HeaderFields(HeaderBytes(h) + tail, h, tail)
  {
    hide Le, Value;
    Le32(|h.key.hash|);
    Le32(h.key.width);
    Le32(h.key.height);
    Le32(h.key.dpi);
    Le32(h.spsPpsLen);
    Parts(Le(|h.key.hash|, 4), h.key.hash, Le(h.key.width, 4), Le(h.key.height, 4), Le(h.key.dpi, 4),
          Le(h.spsPpsLen, 4), tail);
  }

  lemma Cut(t: Bytes, i: nat, j: nat)
    requires i <= j <= |t|
    ensures t[i..] == t[i..j] + t[j..]
  {
  }

  lemma Regroup(a: Bytes, b: Bytes, c: Bytes, d: Bytes, e: Bytes, f: Bytes, g: Bytes)
    ensures a + b + (c + (d + (e + f))) + g == a + (b + (c + (d + (e + (f + g)))))
  {
  }

  lemma HeaderDetermined(text: Bytes, h: Header, tail: Bytes)
    requires HeaderFields(text, h, tail)
    ensures text == HeaderBytes(h) + tail
  {
    hide Le, Value;
    var n := |h.key.hash|;
    LeOfValue(text[..4]);
    LeOfValue(text[4 + n..8 + n]);
    LeOfValue(text[8 + n..12 + n]);
    LeOfValue(text[12 + n..16 + n]);
    LeOfValue(text[16 + n..20 + n]);
    Cut(text, 0, 4); Cut(text, 4, 4 + n); Cut(text, 4 + n, 8 + n);
    Cut(text, 8 + n, 12 + n); Cut(text, 12 + n, 16 + n); Cut(text, 16 + n, 20 + n);
    Regroup(text[..4], text[4..4 + n], text[4 + n..8 + n], text[8 + n..12 + n], text[12 + n..16 + n],
            text[16 + n..20 + n], tail);
    assert text[0..] == text && text[0..4] == text[..4];
  }

  /** The hash that the length field announces is all there and is not UTF-8. */
  ghost predicate BadHash(text: Bytes) {
    && |text| >= 4 && Value(text[..4]) <= |text| - 4
    && !ValidUtf8(text[4..4 + Value(text[..4])])
  }

  method DecodeHeader(cursor: Cursor) returns (r: Result<Header, Error>)
    requires cursor.Valid()
    modifies cursor`position
    ensures cursor.Valid()
    ensures r.Ok? ==> HeaderFields(old(cursor.Rest()), r.value, cursor.Rest())
    ensures r.Err? ==>
              && (r.error.InvalidFormat? || r.error.InvalidHash?)
              && forall h: Header, tail: Bytes :: !HeaderFields(old(cursor.Rest()), h, tail)
    ensures r == Err(InvalidHash) <==> BadHash(old(cursor.Rest()))
  {
    hide Value, ValidUtf8, HeaderFields;
    ghost var text := cursor.Rest();
    var hashLen := cursor.ReadU32();
    if hashLen.Err? { NoHeader(text); return Err(hashLen.error); }
    var n := hashLen.value;
    var hash := cursor.Take(n);
    if hash.Err? { NoHeader(text); return Err(hash.error); }
    assert hash.value == text[4..4 + n] && cursor.Rest() == text[4 + n..];
    if !ValidUtf8(hash.value) { NoHeader(text); return Err(InvalidHash); }
    var width := cursor.ReadU32();
    if width.Err? { NoHeader(text); return Err(width.error); }
    assert text[4 + n..][..4] == text[4 + n..8 + n] && cursor.Rest() == text[8 + n..];
    var height := cursor.ReadU32();
    if height.Err? { NoHeader(text); return Err(height.error); }
    assert text[8 + n..][..4] == text[8 + n..12 + n] && cursor.Rest() == text[12 + n..];
    var dpi := cursor.ReadU32();
    if dpi.Err? { NoHeader(text); return Err(dpi.error); }
    assert text[12 + n..][..4] == text[12 + n..16 + n] && cursor.Rest() == text[16 + n..];
    var spsPpsLen := cursor.ReadU32();
    if spsPpsLen.Err? { NoHeader(text); return Err(spsPpsLen.error); }
    assert text[16 + n..][..4] == text[16 + n..20 + n] && cursor.Rest() == text[20 + n..];
    HasHeader(text, hash.value, width.value, height.value, dpi.value, spsPpsLen.value);
    return Ok(Header(Key(hash.value, width.value, height.value, dpi.value), spsPpsLen.value));
  }

  lemma NoHeader(text: Bytes)
    requires |text| >= 4 && |text| >= 20 + Value(text[..4]) ==> !ValidUtf8(text[4..4 + Value(text[..4])])
    ensures forall h: Header, tail: Bytes :: !HeaderFields(text, h, tail)
  {
    hide Value, ValidUtf8;
  }

  lemma HasHeader(text: Bytes, hash: Utf8, width: u32, height: u32, dpi: u32, spsPpsLen: u32)
    requires var n := |hash|;
             && |text| >= 20 + n && Value(text[..4]) == n && text[4..4 + n] == hash
             && Value(text[4 + n..8 + n]) == width && Value(text[8 + n..12 + n]) == height
             && Value(text[12 + n..16 + n]) == dpi && Value(text[16 + n..20 + n]) == spsPpsLen
    ensures HeaderFields(text, Header(Key(hash, width, height, dpi), spsPpsLen), text[20 + |hash|..])
  {
    hide Value, ValidUtf8;
  }

  // The file.

  /** The magic and the three fixed fields. */
  method ReadPrefix(cursor: Cursor) returns (r: Result<(u32, u32, u32), Error>)
    requires cursor.Valid() && cursor.position == 0
    modifies cursor`position
    ensures cursor.Valid()
    ensures var buf := cursor.buf;
            && (r.Ok? <==> |buf| >= 20 && buf[..8] == MAGIC)
            && (r.Ok? ==> cursor.position == 20
                          && r.value == (Value(buf[8..12]), Value(buf[12..16]), Value(buf[16..20])))
            && (r.Err? ==> r.error.InvalidFormat?)
  {
    hide Value;
    ghost var buf := cursor.buf;
    var magic := cursor.Take(|MAGIC|);
    if magic.Err? { return Err(magic.error); }
    if magic.value != MAGIC { return Err(InvalidFormat("bad magic")); }
    var headerLen := cursor.ReadU32();
    if headerLen.Err? { return Err(headerLen.error); }
    assert buf[8..][..4] == buf[8..12];
    var headerCrc := cursor.ReadU32();
    if headerCrc.Err? { return Err(headerCrc.error); }
    assert buf[12..][..4] == buf[12..16];
    var contentCrc := cursor.ReadU32();
    if contentCrc.Err? { return Err(contentCrc.error); }
    assert buf[16..][..4] == buf[16..20];
    return Ok((headerLen.value, headerCrc.value, contentCrc.value));
  }

  /** Magic, lengths and checksums: the part of `load` before the header is decoded. */
  method ReadFrame(buf: Bytes, usizeMax: nat) returns (r: Result<(Bytes, Bytes), Error>)
    requires |buf| <= usizeMax
    ensures r.Ok? ==> FrameFields(buf, r.value.0, r.value.1)
    ensures r.Err? ==> r.error.InvalidFormat? && forall header, body :: !FrameFields(buf, header, body)
  {
    hide Value, Crc, FrameFields;
    var cursor := new Cursor(buf, usizeMax);
    var prefix := ReadPrefix(cursor);
    if prefix.Err? { NoFrame(buf); return Err(prefix.error); }
    var (headerLen, headerCrc, contentCrc) := prefix.value;

    if cursor.position + headerLen > usizeMax {
      NoFrame(buf);
      return Err(InvalidFormat("header length overflow"));
    }
    var headerEnd := cursor.position + headerLen;
    if headerEnd > |buf| { NoFrame(buf); return Err(InvalidFormat("truncated header")); }
    var header := buf[cursor.position..headerEnd];
    if Crc(header) != headerCrc { NoFrame(buf); return Err(InvalidFormat("header CRC mismatch")); }
    var body := buf[headerEnd..];
    if Crc(body) != contentCrc { NoFrame(buf); return Err(InvalidFormat("content CRC mismatch")); }
    HasFrame(buf, header, body);
    return Ok((header, body));
  }

  lemma NoFrame(b: Bytes)
    requires |b| >= 20 && b[..8] == MAGIC && |b| >= 20 + Value(b[8..12]) ==>
               var end := 20 + Value(b[8..12]);
               Crc(b[20..end]) != Value(b[12..16]) || Crc(b[end..]) != Value(b[16..20])
    ensures forall header, body :: !FrameFields(b, header, body)
  {
    hide Value, Crc;
  }

  lemma HasFrame(b: Bytes, header: Bytes, body: Bytes)
    requires |b| >= 20 + |header| && b[..8] == MAGIC && Value(b[8..12]) == |header|
    requires header == b[20..20 + |header|] && body == b[20 + |header|..]
    requires Crc(header) == Value(b[12..16]) && Crc(body) == Value(b[16..20])
    ensures FrameFields(b, header, body)
  {
    hide Value, Crc;
  }

  /** The file holds a well-formed frame around a well-formed header with nothing after it. */
  ghost predicate HoldsHeader(buf: Bytes, h: Header, body: Bytes) {
    |h.key.hash| + 20 <= U32_MAX && buf == Framed(HeaderBytes(h), body)
  }

  lemma HoldsHeaderFields(buf: Bytes, h: Header, body: Bytes)
    ensures HoldsHeader(buf, h, body) ==>
              FrameFields(buf, HeaderBytes(h), body) && HeaderFields(HeaderBytes(h), h, [])
  {
    if HoldsHeader(buf, h, body) {
      FramedReadBack(HeaderBytes(h), body);
      HeaderReadBack(h, []);
      assert HeaderBytes(h) + [] == HeaderBytes(h);
    }
  }

  lemma FieldsHoldHeader(buf: Bytes, header: Bytes, h: Header, body: Bytes)
    requires FrameFields(buf, header, body) && HeaderFields(header, h, [])
    ensures HoldsHeader(buf, h, body) && header == HeaderBytes(h)
  {
    FrameDetermined(buf, header, body);
    HeaderDetermined(header, h, []);
    assert HeaderBytes(h) + [] == HeaderBytes(h);
  }

  /** Frame and header of a file are determined by its bytes. */
  lemma HeaderUnique(buf: Bytes, header: Bytes, h: Header, tail: Bytes, body: Bytes, h2: Header, body2: Bytes)
    requires FrameFields(buf, header, body) && HeaderFields(header, h, tail)
    requires HoldsHeader(buf, h2, body2)
    ensures h2 == h && body2 == body && tail == [] && header == HeaderBytes(h)
  {
    HoldsHeaderFields(buf, h2, body2);
    assert |header| == |HeaderBytes(h2)|;
    assert header == HeaderBytes(h2);
    assert |h.key.hash| == |h2.key.hash|;
    assert h.key.hash == h2.key.hash;
  }

  /** The frame and header of the whole file, or why there is none. */
  method ReadFile(buf: Bytes, usizeMax: nat) returns (r: Result<(Header, Bytes), Error>)
    requires |buf| <= usizeMax
    ensures r.Ok? ==> HoldsHeader(buf, r.value.0, r.value.1)
    ensures forall h: Header, body :: HoldsHeader(buf, h, body) ==> r == Ok((h, body))
    ensures r.Err? ==> r.error.InvalidFormat? || r.error.InvalidHash?
    ensures r == Err(InvalidHash) <==> exists header, body :: FrameFields(buf, header, body) && BadHash(header)
  {
    hide HoldsHeader, FrameFields, HeaderFields, BadHash;
    forall h: Header, body | HoldsHeader(buf, h, body)
      ensures FrameFields(buf, HeaderBytes(h), body) && HeaderFields(HeaderBytes(h), h, [])
    {
      HoldsHeaderFields(buf, h, body);
    }
    var frame := ReadFrame(buf, usizeMax);
    if frame.Err? { return Err(frame.error); }
    var (header, body) := frame.value;
    FrameInside(buf, header, body);
    var cursor := new Cursor(header, usizeMax);
    var decoded := DecodeHeader(cursor);
    if decoded.Err? {
      forall h, b | HoldsHeader(buf, h, b) ensures false {
        FrameUnique(buf, header, body, HeaderBytes(h), b);
      }
      FrameUniqueAll(buf, header, body);
      return Err(decoded.error);
    }
    var h := decoded.value;
    ghost var tail := cursor.Rest();
    forall h2, b | HoldsHeader(buf, h2, b) ensures h2 == h && b == body && tail == [] {
      HeaderUnique(buf, header, h, tail, body, h2, b);
    }
    FrameUniqueAll(buf, header, body);
    if cursor.position != |header| {
      return Err(InvalidFormat("trailing header bytes"));
    }
    FieldsHoldHeader(buf, header, h, body);
    return Ok((h, body));
  }

  lemma FrameInside(buf: Bytes, header: Bytes, body: Bytes)
    requires FrameFields(buf, header, body)
    ensures |header| <= |buf|
  {
  }

  lemma FrameUnique(buf: Bytes, header: Bytes, body: Bytes, header2: Bytes, body2: Bytes)
    requires FrameFields(buf, header, body) && FrameFields(buf, header2, body2)
    ensures header == header2 && body == body2
  {
    hide Value, Crc;
  }

  lemma FrameUniqueAll(buf: Bytes, header: Bytes, body: Bytes)
    requires FrameFields(buf, header, body)
    ensures forall header2, body2 :: FrameFields(buf, header2, body2) ==> header2 == header && body2 == body
  {
    hide Value, Crc;
  }

  /** `load` on the bytes of the file, if there is one: it returns an entry exactly when the file is the
      encoding of that entry under the expected key. */
  method Load(file: Option<Bytes>, expected: Key, usizeMax: nat) returns (r: Result<Entry, Error>)
    requires file.Some? ==> |file.value| <= usizeMax
    ensures forall e :: r == Ok(e) <==> Storable(expected, e) && file == Some(Encoded(expected, e))
    ensures r == Err(NotFound) <==> file == None
    ensures r == Err(OutOfDate) <==>
            exists h: Header, body :: file.Some? && h.key != expected && HoldsHeader(file.value, h, body)
    ensures r == Err(InvalidHash) <==>
            exists header, body :: file.Some? && FrameFields(file.value, header, body) && BadHash(header)
  {
    hide FrameFields, BadHash, HeaderBytes, Framed;
    if file == None { return Err(NotFound); }
    var buf := file.value;
    var content := ReadFile(buf, usizeMax);
    forall e | Storable(expected, e) && file == Some(Encoded(expected, e))
      ensures content == Ok((Header(expected, |e.spsPps|), e.spsPps + e.keyframe))
    {
      assert HoldsHeader(buf, Header(expected, |e.spsPps|), e.spsPps + e.keyframe);
    }
    if content.Err? { return Err(content.error); }
    var (header, body) := content.value;
    if header.key != expected { return Err(OutOfDate); }
    var n := header.spsPpsLen;
    if n > |body| { return Err(InvalidFormat("truncated SPS/PPS buffer")); }
    assert body[..n] + body[n..] == body;
    r := Ok(Entry(body[..n], body[n..]));
    forall e | Storable(expected, e) && file == Some(Encoded(expected, e)) ensures r == Ok(e) {
      assert |e.spsPps| == n && e.spsPps + e.keyframe == body;
      assert body[..n] == e.spsPps && body[n..] == e.keyframe;
    }
  }

  /** The file byte by byte: magic, lengths, checksums, key and buffers at their places. */
  lemma FileLayout(b: Bytes, key: Key, entry: Entry)
    requires |entry.spsPps| < 0x1_0000_0000 && |key.hash| + 20 < 0x1_0000_0000
    ensures Storable(key, entry)
    ensures var n, body := |key.hash|, entry.spsPps + entry.keyframe;
            b == Encoded(key, entry) <==>
            && |b| == 40 + n + |body|
            && b[..8] == [0x43, 0x50, 0x4B, 0x46, 0x43, 0x00, 0x01, 0x00]
            && Value(b[8..12]) == 20 + n
            && Value(b[12..16]) == Crc(b[20..40 + n]) && Value(b[16..20]) == Crc(body)
            && Value(b[20..24]) == n && b[24..24 + n] == key.hash
            && Value(b[24 + n..28 + n]) == key.width
            && Value(b[28 + n..32 + n]) == key.height
            && Value(b[32 + n..36 + n]) == key.dpi
            && Value(b[36 + n..40 + n]) == |entry.spsPps|
            && b[40 + n..] == body
  {
    hide HeaderBytes, Framed, Crc, Value;
    var h, n, body := Header(key, |entry.spsPps|), |key.hash|, entry.spsPps + entry.keyframe;
    assert HoldsHeader(b, h, body) <==> b == Encoded(key, entry);
    HoldsHeaderFields(b, h, body);
    if |b| >= 40 + n {
      var header := b[20..40 + n];
      SliceOf(b, 20, 40 + n, 0, 4);
      SliceOf(b, 20, 40 + n, 4, 4 + n);
      SliceOf(b, 20, 40 + n, 4 + n, 8 + n);
      SliceOf(b, 20, 40 + n, 8 + n, 12 + n);
      SliceOf(b, 20, 40 + n, 12 + n, 16 + n);
      SliceOf(b, 20, 40 + n, 16 + n, 20 + n);
      if FrameFields(b, header, body) && HeaderFields(header, h, []) {
        FieldsHoldHeader(b, header, h, body);
      }
    }
  }

  lemma SliceOf(b: Bytes, from: nat, to: nat, i: nat, j: nat)
    requires from <= to <= |b| && i <= j <= to - from
    ensures b[from..to][i..j] == b[from + i..from + j]
  {
    var x, y := b[from..to][i..j], b[from + i..from + j];
    forall k | 0 <= k < j - i ensures x[k] == y[k] {
      assert x[k] == b[from..to][i + k] == b[from + i + k];
    }
  }

  /** `store`: the bytes it writes. */
  method Store(key: Key, entry: Entry) returns (r: Result<Bytes, Error>)
    ensures Storable(key, entry) ==> r == Ok(Encoded(key, entry))
    ensures !Storable(key, entry) ==> r.Err? && r.error.InvalidFormat?
    ensures r.Ok? <==> |entry.spsPps| < 0x1_0000_0000 && |key.hash| + 20 < 0x1_0000_0000
  {
    hide HeaderBytes, Crc, Le, Hasher.Feed, Hasher.Finalize;
    if |entry.spsPps| > U32_MAX { return Err(InvalidFormat("SPS/PPS buffer too large")); }
    if |key.hash| > U32_MAX { return Err(InvalidFormat("hash too large")); }
    var header := HeaderBytes(Header(key, |entry.spsPps|));
    if |header| > U32_MAX { return Err(InvalidFormat("header too large")); }
    var contentCrc := NEW_HASHER.Feed(entry.spsPps).Feed(entry.keyframe).Finalize();
    HasherInPieces(entry.spsPps, entry.keyframe);
    var buf := MAGIC + Le(|header|, 4) + Le(Crc(header), 4) + Le(contentCrc, 4) + header + entry.spsPps + entry.keyframe;
    Regrouped(MAGIC, Le(|header|, 4), Le(Crc(header), 4), Le(contentCrc, 4), header, entry.spsPps, entry.keyframe);
    return Ok(buf);
  }

  lemma Regrouped(a: Bytes, b: Bytes, c: Bytes, d: Bytes, e: Bytes, f: Bytes, g: Bytes)
    ensures a + b + c + d + e + f + g == a + (b + (c + (d + (e + (f + g)))))
  {
  }

  /** What was stored under a key is loaded under that key, and is out of date under any other. */
  method StoreThenLoad(key: Key, entry: Entry, expected: Key, usizeMax: nat) returns (r: Result<Entry, Error>)
    requires Storable(key, entry) && |Encoded(key, entry)| <= usizeMax
    ensures r == if expected == key then Ok(entry) else Err(OutOfDate)
  {
    hide HeaderBytes, Framed, FrameFields, BadHash;
    var stored := Store(key, entry);
    assert HoldsHeader(stored.value, Header(key, |entry.spsPps|), entry.spsPps + entry.keyframe);
    r := Load(Some(stored.value), expected, usizeMax);
    if expected == key {
      assert r == Ok(entry);
    } else {
      assert r == Err(OutOfDate);
    }
  }

  // Damage.

  lemma SameSlice(a: Bytes, b: Bytes, at: int, lo: nat, hi: nat)
    requires Within(a, b, at) && lo <= hi <= |a|
    requires at + 4 <= lo || hi <= at
    ensures a[lo..hi] == b[lo..hi]
  {
  }

  lemma PartWithin(a: Bytes, b: Bytes, at: int, lo: nat, hi: nat)
    requires Within(a, b, at) && lo <= hi <= |a|
    ensures Within(a[lo..hi], b[lo..hi], at - lo)
  {
  }

  lemma HashLengthInFile(buf: Bytes, h: Header, body: Bytes)
    requires HoldsHeader(buf, h, body)
    ensures |buf| >= 40 && Value(buf[20..24]) == |h.key.hash|
  {
    hide Value, Crc, Framed, HeaderBytes;
    HoldsHeaderFields(buf, h, body);
    assert HeaderBytes(h)[..4] == buf[20..24];
  }

  /** Both lengths of the header are in the file, too far apart to be damaged together. */
  lemma SameHeaderLength(a: Bytes, ha: Header, bodyA: Bytes, b: Bytes, hb: Header, bodyB: Bytes, at: int)
    requires HoldsHeader(a, ha, bodyA) && HoldsHeader(b, hb, bodyB) && Within(a, b, at)
    ensures |ha.key.hash| == |hb.key.hash|
  {
    hide Value, HeaderBytes, Crc, HeaderFields;
    HashLengthInFile(a, ha, bodyA);
    HashLengthInFile(b, hb, bodyB);
    HoldsHeaderFields(a, ha, bodyA);
    HoldsHeaderFields(b, hb, bodyB);
    if 4 < at < 12 {
      SameSlice(a, b, at, 20, 24);
    } else {
      SameSlice(a, b, at, 8, 12);
    }
  }

  /** Two acceptable files that agree outside four consecutive bytes are the same file. */
  lemma FilesApart(a: Bytes, ha: Header, bodyA: Bytes, b: Bytes, hb: Header, bodyB: Bytes, at: int)
    requires HoldsHeader(a, ha, bodyA) && HoldsHeader(b, hb, bodyB) && Within(a, b, at)
    ensures a == b
  {
    hide Value, HeaderBytes, Crc, HeaderFields, Framed, Within;
    SameHeaderLength(a, ha, bodyA, b, hb, bodyB, at);
    var x, y := HeaderBytes(ha), HeaderBytes(hb);
    var end := 20 + |x|;
    HoldsHeaderFields(a, ha, bodyA);
    HoldsHeaderFields(b, hb, bodyB);
    assert |a| == |b| by { WithinLength(a, b, at); }
    if 8 < at < 16 {
      SameSlice(a, b, at, 20, end);
    } else {
      SameSlice(a, b, at, 12, 16);
      PartWithin(a, b, at, 20, end);
      BurstWithin(x, y, at - 20);
    }
    if 12 < at < 20 {
      SameSlice(a, b, at, end, |a|);
    } else {
      SameSlice(a, b, at, 16, 20);
      PartWithin(a, b, at, end, |a|);
      assert a[end..|a|] == bodyA && b[end..|a|] == bodyB;
      BurstWithin(bodyA, bodyB, at - end);
    }
    assert a[end..|a|] == bodyA && b[end..|a|] == bodyB;
  }

  lemma BurstWithin(a: Bytes, b: Bytes, at: int)
    requires Within(a, b, at) && Crc(a) == Crc(b)
    ensures a == b
  {
    hide Crc;
    BurstDetected(a, b, at);
  }

  /** Damage to an encoded file that stays inside four consecutive bytes, wherever they are, is no
      encoding of anything under any key. */
  lemma DamageIsNoEncoding(key: Key, entry: Entry, damaged: Bytes, at: int, key2: Key, entry2: Entry)
    requires Storable(key, entry) && Storable(key2, entry2)
    requires Within(Encoded(key, entry), damaged, at) && damaged != Encoded(key, entry)
    ensures damaged != Encoded(key2, entry2)
  {
    hide HeaderBytes, Framed, Within;
    if damaged == Encoded(key2, entry2) {
      FilesApart(Encoded(key, entry), Header(key, |entry.spsPps|), entry.spsPps + entry.keyframe,
                 damaged, Header(key2, |entry2.spsPps|), entry2.spsPps + entry2.keyframe, at);
    }
  }

  /** Loading a file damaged inside four consecutive bytes fails under every key. */
  method LoadDamaged(key: Key, entry: Entry, damaged: Bytes, at: int, expected: Key, usizeMax: nat)
    returns (r: Result<Entry, Error>)
    requires Storable(key, entry) && |damaged| <= usizeMax
    requires Within(Encoded(key, entry), damaged, at) && damaged != Encoded(key, entry)
    ensures r.Err? && (r.error.InvalidFormat? || r.error.InvalidHash?)
  {
    hide HeaderBytes, Framed, Within, FrameFields, BadHash, HoldsHeader;
    assert HoldsHeader(Encoded(key, entry), Header(key, |entry.spsPps|), entry.spsPps + entry.keyframe) by {
      EncodedHolds(key, entry);
    }
    forall h: Header, body | HoldsHeader(damaged, h, body) ensures false {
      FilesApart(Encoded(key, entry), Header(key, |entry.spsPps|), entry.spsPps + entry.keyframe, damaged, h, body, at);
    }
    forall e | Storable(expected, e) ensures damaged != Encoded(expected, e) {
      DamageIsNoEncoding(key, entry, damaged, at, expected, e);
    }
    r := Load(Some(damaged), expected, usizeMax);
  }

  lemma EncodedHolds(key: Key, entry: Entry)
    requires Storable(key, entry)
    ensures HoldsHeader(Encoded(key, entry), Header(key, |entry.spsPps|), entry.spsPps + entry.keyframe)
  {
    hide HeaderBytes, Framed;
  }
}
