/** A byte vector in memory that the kernel may take away: a checksummed header, the data, and slack
    up to the page end. Reading it back notices when something is gone. */
module ReclaimableVecModel {
  import opened Options
  import opened Bits
  import opened Slots
  import opened Crc32
  import opened ByteCodec

  const MAGIC: nat := 0x4350_5245_434c_414d
  const VERSION: nat := 1
  const HEADER_LEN: nat := 40
  const DATA_OFFSET: nat := 40

  datatype Error = Gone | CapacityOverflow | NotEnoughCapacity

  /** `round_up`, with the overflow of the machine word. */
  function RoundUp(value: nat, align: nat, usizeMax: nat): Option<nat>
    requires align > 0
  {
    var rem := value % align;
    if rem == 0 then Some(value)
    else if value + (align - rem) > usizeMax then None
    else Some(value + (align - rem))
  }

  /** It gives the least multiple that is not smaller, or overflows exactly when that does not fit. */
  lemma RoundUpLeast(value: nat, align: nat, usizeMax: nat)
    requires align > 0 && value <= usizeMax
    ensures var least := (value + align - 1) / align * align;
            && value <= least < value + align && least % align == 0
            && RoundUp(value, align, usizeMax) == if least <= usizeMax then Some(least) else None
  {
    var q, r := value / align, value % align;
    assert value == q * align + r;
    assert (q + 1) * align == q * align + align;
    if r == 0 {
      RemainderUnique(value + align - 1, align, q, align - 1);
      RemainderUnique(q * align, align, q, 0);
    } else {
      RemainderUnique(value + align - 1, align, q + 1, r - 1);
      RemainderUnique((q + 1) * align, align, q + 1, 0);
    }
  }

  // The header.

  /** The part of the header that its own checksum covers. */
  function Covered(len: nat, capacity: nat, dataCrc: u32): (b: Bytes)
    ensures |b| == 36
  {
    Le(MAGIC, 8) + Le(VERSION, 4) + Le(HEADER_LEN, 4) + Le(len, 8) + Le(capacity, 8) + Le(dataCrc, 4)
  }

  function HeaderBytes(len: nat, capacity: nat, dataCrc: u32): (b: Bytes)
    ensures |b| == HEADER_LEN
  {
    Covered(len, capacity, dataCrc) + Le(Crc(Covered(len, capacity, dataCrc)), 4)
  }

  /** Header and live data as `build` leaves them. */
  ghost predicate Sealed(mem: Bytes, len: nat, capacity: nat) {
    && DATA_OFFSET + len <= |mem|
    && mem[..HEADER_LEN] == HeaderBytes(len, capacity, Crc(mem[DATA_OFFSET..DATA_OFFSET + len]))
  }

  /** The checks of `read_valid_header` and of the two readers, field by field. */
  predicate Accepts(mem: Bytes, len: nat, capacity: nat)
    requires DATA_OFFSET + len <= |mem|
  {
    && Value(mem[..8]) == MAGIC
    && Value(mem[8..12]) == VERSION
    && Value(mem[12..16]) == HEADER_LEN
    && Crc(mem[..36]) == Value(mem[36..40])
    && Value(mem[16..24]) <= Value(mem[24..32])
    && Value(mem[24..32]) == capacity
    && Value(mem[16..24]) == len
    && Crc(mem[DATA_OFFSET..DATA_OFFSET + len]) == Value(mem[32..36])
  }

  lemma Cut(t: Bytes, i: nat, j: nat)
    requires i <= j <= |t|
    ensures t[..j] == t[..i] + t[i..j]
  {
  }

  lemma Le64(n: nat)
    requires n < 0x1_0000_0000_0000_0000
    ensures Value(Le(n, 8)) == n
  {
    BytePower(8); BytePower(7); BytePower(6); BytePower(5);
    BytePower(4); BytePower(3); BytePower(2); BytePower(1);
    ValueOfLe(n, 8);
  }

  /** The field checks accept exactly the header that `build` would write for this data. */
  lemma AcceptsExactly(mem: Bytes, len: nat, capacity: nat)
    requires DATA_OFFSET + len <= |mem|
    requires len <= capacity < 0x1_0000_0000_0000_0000
    ensures Accepts(mem, len, capacity) <==> Sealed(mem, len, capacity)
    ensures Sealed(mem, len, capacity) <==>
            && |mem| >= 40
            && Value(mem[..8]) == 0x4350_5245_434C_414D && Value(mem[8..12]) == 1 && Value(mem[12..16]) == 40
            && Value(mem[16..24]) == len && Value(mem[24..32]) == capacity
            && Value(mem[32..36]) == Crc(mem[40..40 + len]) && Value(mem[36..40]) == Crc(mem[..36])
  {
    hide Le, Value, Crc;
    if Accepts(mem, len, capacity) {
      LeOfValue(mem[..8]); LeOfValue(mem[8..12]); LeOfValue(mem[12..16]);
      LeOfValue(mem[16..24]); LeOfValue(mem[24..32]); LeOfValue(mem[32..36]); LeOfValue(mem[36..40]);
      Cut(mem, 8, 12); Cut(mem, 12, 16); Cut(mem, 16, 24); Cut(mem, 24, 32); Cut(mem, 32, 36); Cut(mem, 36, 40);
    }
    if Sealed(mem, len, capacity) {
      SealedFields(mem, len, capacity);
    }
  }

  lemma SealedFields(mem: Bytes, len: nat, capacity: nat)
    requires Sealed(mem, len, capacity) && len <= capacity < 0x1_0000_0000_0000_0000
    ensures Accepts(mem, len, capacity)
  {
    hide Le, Value, Crc;
    var crc := Crc(mem[DATA_OFFSET..DATA_OFFSET + len]);
    var c := Covered(len, capacity, crc);
    Le64(MAGIC); Le32(VERSION); Le32(HEADER_LEN); Le64(len); Le64(capacity); Le32(crc); Le32(Crc(c));
    var h := mem[..40];
    assert mem[..36] == h[..36] == c;
    assert mem[36..40] == h[36..40] == Le(Crc(c), 4);
    assert mem[..8] == c[..8] == Le(MAGIC, 8);
    assert mem[8..12] == c[8..12] == Le(VERSION, 4);
    assert mem[12..16] == c[12..16] == Le(HEADER_LEN, 4);
    assert mem[16..24] == c[16..24] == Le(len, 8);
    assert mem[24..32] == c[24..32] == Le(capacity, 8);
    assert mem[32..36] == c[32..36] == Le(crc, 4);
  }

  // Damage.

  /** Of all memories that differ from a sealed one inside four consecutive bytes, exactly those are
      still accepted that leave header and live data alone. */
  lemma DamageNoticed(mem: Bytes, damaged: Bytes, at: int, len: nat, capacity: nat)
    requires Sealed(mem, len, capacity) && Within(mem, damaged, at)
    ensures Sealed(damaged, len, capacity) <==> damaged[..DATA_OFFSET + len] == mem[..DATA_OFFSET + len]
  {
    hide Le, Crc, Within;
    var end := DATA_OFFSET + len;
    assert |damaged| == |mem| by { WithinLength(mem, damaged, at); }
    var live, now := mem[DATA_OFFSET..end], damaged[DATA_OFFSET..end];
    if damaged[..end] == mem[..end] {
      assert now == damaged[..end][DATA_OFFSET..] && live == mem[..end][DATA_OFFSET..];
      assert damaged[..HEADER_LEN] == damaged[..end][..HEADER_LEN];
      assert mem[..HEADER_LEN] == mem[..end][..HEADER_LEN];
    }
    if Sealed(damaged, len, capacity) {
      if at > 36 {
        HeaderIntact(mem, damaged, at);
        CrcField(len, capacity, Crc(live), Crc(now));
        DataWithin(mem, damaged, at, end);
        BurstDetected(live, now, at - DATA_OFFSET);
      } else {
        DataIntact(mem, damaged, at, end);
      }
      Cut(mem, DATA_OFFSET, end);
      Cut(damaged, DATA_OFFSET, end);
    }
  }

  lemma HeaderIntact(a: Bytes, b: Bytes, at: int)
    requires Within(a, b, at) && |a| >= 36 && at > 35
    ensures a[..36] == b[..36]
  {
  }

  lemma DataIntact(a: Bytes, b: Bytes, at: int, end: nat)
    requires Within(a, b, at) && 40 <= end <= |a| && at <= 36
    ensures a[40..end] == b[40..end]
  {
  }

  lemma DataWithin(a: Bytes, b: Bytes, at: int, end: nat)
    requires Within(a, b, at) && 40 <= end <= |a|
    ensures forall i :: 0 <= i < end - 40 && !(at - 40 <= i < at - 40 + 4) ==> a[40..end][i] == b[40..end][i]
  {
    forall i | 0 <= i < end - 40 && !(at - 40 <= i < at - 40 + 4)
      ensures a[40..end][i] == b[40..end][i]
    {
      assert a[40 + i] == b[40 + i];
    }
  }

  /** The header fixes the checksum of the data. */
  lemma CrcField(len: nat, capacity: nat, x: u32, y: u32)
    requires HeaderBytes(len, capacity, x)[..36] == HeaderBytes(len, capacity, y)[..36]
    ensures x == y
  {
    hide Le, Crc;
    var a, b := HeaderBytes(len, capacity, x), HeaderBytes(len, capacity, y);
    assert Le(x, 4) == a[..36][32..36];
    assert Le(y, 4) == b[..36][32..36];
    Le32(x);
    Le32(y);
  }

  /** A first page that the kernel replaced with zeros is noticed. */
  lemma ReclaimNoticed(mem: Bytes, len: nat, capacity: nat)
    requires DATA_OFFSET + len <= |mem| && len <= capacity < 0x1_0000_0000_0000_0000
    requires forall i :: 0 <= i < 8 ==> mem[i] == 0
    ensures !Sealed(mem, len, capacity)
  {
    hide Crc;
    AcceptsExactly(mem, len, capacity);
    ZeroValue(mem[..8]);
  }

  lemma {:induction false} ZeroValue(b: Bytes)
    requires forall i :: 0 <= i < |b| ==> b[i] == 0
    ensures Value(b) == 0
  {
    if b != [] { ZeroValue(b[1..]); }
  }

  // The builder and the vector.

  class ReclaimableVec {
    const mapping: array<u8>
    const capacity: nat
    const len: nat

    ghost predicate Valid() {
      len <= capacity < 0x1_0000_0000_0000_0000 && DATA_OFFSET + capacity <= mapping.Length
    }

    constructor (mapping: array<u8>, capacity: nat, len: nat)
      requires len <= capacity < 0x1_0000_0000_0000_0000 && DATA_OFFSET + capacity <= mapping.Length
      ensures Valid() && this.mapping == mapping && this.capacity == capacity && this.len == len
    {
      this.mapping := mapping;
      this.capacity := capacity;
      this.len := len;
    }

    /** Copies the data out if header and checksum vouch for it: exactly when the memory is as `build`
        leaves it for the data that is there. */
    method CopyToVec() returns (r: Result<Bytes, Error>)
      requires Valid()
      ensures r == if Sealed(mapping[..], len, capacity) then Ok(mapping[DATA_OFFSET..DATA_OFFSET + len]) else Err(Gone)
    {
      hide Crc, Value, Sealed;
      AcceptsExactly(mapping[..], len, capacity);
      var header := mapping[..HEADER_LEN];
      Fields(mapping[..], len, capacity);
      if Value(header[..8]) != MAGIC || Value(header[8..12]) != VERSION || Value(header[12..16]) != HEADER_LEN
         || Crc(header[..36]) != Value(header[36..40]) {
        return Err(Gone);
      }
      var storedLen, storedCapacity := Value(header[16..24]), Value(header[24..32]);
      if storedLen > storedCapacity || storedCapacity != capacity || storedLen != len {
        return Err(Gone);
      }
      var out := mapping[DATA_OFFSET..DATA_OFFSET + len];
      if Crc(out) != Value(header[32..36]) {
        return Err(Gone);
      }
      return Ok(out);
    }

    /** The same checks without the copy. */
    method Validate() returns (r: Result<(), Error>)
      requires Valid()
      ensures r == if Sealed(mapping[..], len, capacity) then Ok(()) else Err(Gone)
    {
      var copy := CopyToVec();
      return if copy.Ok? then Ok(()) else Err(Gone);
    }
  }

  /** Reading fields from a copy of the header reads them from the memory. */
  lemma Fields(mem: Bytes, len: nat, capacity: nat)
    requires DATA_OFFSET + len <= |mem|
    ensures var h := mem[..HEADER_LEN];
            && h[..8] == mem[..8] && h[8..12] == mem[8..12] && h[12..16] == mem[12..16] && h[16..24] == mem[16..24]
            && h[24..32] == mem[24..32] && h[32..36] == mem[32..36] && h[..36] == mem[..36] && h[36..40] == mem[36..40]
  {
  }

  class Builder {
    const mapping: array<u8>
    const capacity: nat
    var len: nat

    ghost predicate Valid()
      reads this
    {
      len <= capacity < 0x1_0000_0000_0000_0000 && DATA_OFFSET + capacity <= mapping.Length
    }

    /** The data written so far. */
    ghost function Contents(): Bytes
      requires Valid()
      reads this, mapping
    {
      mapping[DATA_OFFSET..DATA_OFFSET + len]
    }

    /** Header and data agree, as every operation but a raw write to the capacity leaves them. */
    ghost predicate Fresh()
      requires Valid()
      reads this, mapping
    {
      Sealed(mapping[..], len, capacity)
    }

    constructor (mapping: array<u8>, capacity: nat)
      requires capacity < 0x1_0000_0000_0000_0000 && DATA_OFFSET + capacity <= mapping.Length
      modifies mapping
      ensures Valid() && Fresh() && this.mapping == mapping && this.capacity == capacity
      ensures Contents() == []
    {
      this.mapping := mapping;
      this.capacity := capacity;
      len := 0;
      new;
      EmptyCrc();
      WriteHeader(0);
    }

    /** `with_capacity`; the mapping is zeroed memory of whole pages. */
    static method WithCapacity(capacity: nat, pageSize: nat, usizeMax: nat) returns (r: Result<Builder, Error>)
      requires 0 < pageSize && DATA_OFFSET <= usizeMax < 0x1_0000_0000_0000_0000 && capacity <= usizeMax
      ensures r.Ok? ==> fresh(r.value) && fresh(r.value.mapping) && r.value.Valid() && r.value.Fresh()
                        && r.value.capacity == capacity && r.value.Contents() == []
                        && r.value.mapping.Length % pageSize == 0
                        && r.value.mapping.Length < DATA_OFFSET + capacity + pageSize
      ensures r.Err? <==> (DATA_OFFSET + capacity + pageSize - 1) / pageSize * pageSize > usizeMax
      ensures r.Err? ==> r.error == CapacityOverflow
    {
      var wanted := DATA_OFFSET + capacity;
      if wanted > usizeMax {
        Overshoot(wanted, pageSize, usizeMax);
        return Err(CapacityOverflow);
      }
      RoundUpLeast(wanted, pageSize, usizeMax);
      var mapLen := RoundUp(wanted, pageSize, usizeMax);
      if mapLen == None { return Err(CapacityOverflow); }
      var mapping := new u8[mapLen.value](_ => 0);
      var builder := new Builder(mapping, capacity);
      return Ok(builder);
    }

    method WriteHeader(dataCrc: u32)
      requires Valid()
      modifies mapping
      ensures mapping[..] == HeaderBytes(len, capacity, dataCrc) + old(mapping[HEADER_LEN..])
    {
      hide HeaderBytes;
      var header := HeaderBytes(len, capacity, dataCrc);
      forall i | 0 <= i < HEADER_LEN {
        mapping[i] := header[i];
      }
    }

    method RefreshHeaderCrc()
      requires Valid()
      modifies mapping
      ensures Valid() && Fresh()
      ensures mapping[HEADER_LEN..] == old(mapping[HEADER_LEN..])
    {
      hide HeaderBytes, Crc;
      var crc := Crc(mapping[DATA_OFFSET..DATA_OFFSET + len]);
      ghost var data := mapping[HEADER_LEN..];
      assert mapping[DATA_OFFSET..DATA_OFFSET + len] == data[..len];
      WriteHeader(crc);
      assert mapping[..][..HEADER_LEN] == HeaderBytes(len, capacity, crc);
      assert mapping[HEADER_LEN..] == data;
      assert mapping[..][DATA_OFFSET..DATA_OFFSET + len] == data[..len];
    }

    method Clear()
      requires Valid()
      modifies this`len, mapping
      ensures Valid() && Fresh() && Contents() == []
      ensures mapping[HEADER_LEN..] == old(mapping[HEADER_LEN..])
    {
      len := 0;
      EmptyCrc();
      WriteHeader(0);
    }

    /** A write through `as_mut_capacity_slice`. The header is not refreshed. */
    method WriteRaw(at: nat, data: Bytes)
      requires Valid() && at + |data| <= capacity
      modifies mapping
      ensures Valid()
      ensures mapping[..] == old(mapping[..DATA_OFFSET + at]) + data + old(mapping[DATA_OFFSET + at + |data|..])
    {
      forall i | 0 <= i < |data| {
        mapping[DATA_OFFSET + at + i] := data[i];
      }
    }

    method SetLen(newLen: nat) returns (r: Result<(), Error>)
      requires Valid()
      modifies this`len, mapping
      ensures Valid() && (r.Ok? ==> Fresh())
      ensures r == if newLen <= capacity then Ok(()) else Err(NotEnoughCapacity)
      ensures r.Ok? ==> Contents() == old(mapping[..])[DATA_OFFSET..DATA_OFFSET + newLen]
      ensures r.Err? ==> len == old(len) && mapping[..] == old(mapping[..])
    {
      hide Sealed;
      if newLen > capacity { return Err(NotEnoughCapacity); }
      len := newLen;
      ghost var data := mapping[HEADER_LEN..];
      RefreshHeaderCrc();
      assert Contents() == data[..newLen];
      return Ok(());
    }

    method ExtendFromSlice(data: Bytes) returns (r: Result<(), Error>)
      requires Valid()
      modifies this`len, mapping
      ensures Valid() && (r.Ok? ==> Fresh())
      ensures r == if old(len) + |data| <= capacity then Ok(()) else Err(NotEnoughCapacity)
      ensures Contents() == if r.Ok? then old(Contents()) + data else old(Contents())
      ensures r.Err? ==> mapping[..] == old(mapping[..])
    {
      hide Sealed;
      if len + |data| > capacity { return Err(NotEnoughCapacity); }
      ghost var before := mapping[..];
      WriteRaw(len, data);
      ghost var after := mapping[..];
      assert after[DATA_OFFSET..DATA_OFFSET + len + |data|] == before[DATA_OFFSET..DATA_OFFSET + len] + data;
      r := SetLen(len + |data|);
    }

    method Push(b: u8) returns (r: Result<(), Error>)
      requires Valid()
      modifies this`len, mapping
      ensures Valid() && (r.Ok? ==> Fresh())
      ensures r == if old(len) < capacity then Ok(()) else Err(NotEnoughCapacity)
      ensures Contents() == if r.Ok? then old(Contents()) + [b] else old(Contents())
      ensures r.Err? ==> mapping[..] == old(mapping[..])
    {
      hide Sealed;
      if len == capacity { return Err(NotEnoughCapacity); }
      r := ExtendFromSlice([b]);
    }

    method SetFromSlice(data: Bytes) returns (r: Result<(), Error>)
      requires Valid()
      modifies this`len, mapping
      ensures Valid() && (r.Ok? ==> Fresh())
      ensures r == if |data| <= capacity then Ok(()) else Err(NotEnoughCapacity)
      ensures Contents() == if r.Ok? then data else old(Contents())
      ensures r.Err? ==> mapping[..] == old(mapping[..])
    {
      hide Sealed;
      if |data| > capacity { return Err(NotEnoughCapacity); }
      WriteRaw(0, data);
      ghost var after := mapping[..];
      assert after[DATA_OFFSET..DATA_OFFSET + |data|] == data;
      r := SetLen(|data|);
    }

    /** Seals the memory and hands it over. */
    method Build() returns (vec: ReclaimableVec)
      requires Valid()
      modifies mapping
      ensures fresh(vec) && vec.Valid() && vec.mapping == mapping && vec.capacity == capacity && vec.len == len
      ensures Sealed(mapping[..], len, capacity)
      ensures mapping[DATA_OFFSET..DATA_OFFSET + len] == old(Contents())
    {
      hide Sealed;
      ghost var data := mapping[HEADER_LEN..];
      assert Contents() == data[..len];
      RefreshHeaderCrc();
      assert Contents() == data[..len];
      vec := new ReclaimableVec(mapping, capacity, len);
    }
  }

  lemma Overshoot(wanted: nat, pageSize: nat, usizeMax: nat)
    requires 0 < pageSize && wanted > usizeMax
    ensures (wanted + pageSize - 1) / pageSize * pageSize > usizeMax
  {
    RoundUpLeast(wanted, pageSize, wanted);
  }

  /** Data written is read back. After any change inside four consecutive bytes of the mapping the
      same data is read back or the vector is gone, never other data (DamageNoticed says which). */
  method BuildDamageCopy(builder: Builder, at: int, damage: Bytes) returns (before: Result<Bytes, Error>, after: Result<Bytes, Error>)
    requires builder.Valid() && |damage| == builder.mapping.Length
    modifies builder.mapping
    ensures before == Ok(old(builder.Contents()))
    ensures after == before || after == Err(Gone)
  {
    hide Sealed, Within;
    var vec := builder.Build();
    before := vec.CopyToVec();
    ghost var mem := vec.mapping[..];
    var end := DATA_OFFSET + vec.len;
    forall i | 0 <= i < vec.mapping.Length && at <= i < at + 4 {
      vec.mapping[i] := damage[i];
    }
    ghost var damaged := vec.mapping[..];
    assert Within(mem, damaged, at) by { DamagedWithin(mem, damaged, at); }
    DamageNoticed(mem, damaged, at, vec.len, vec.capacity);
    after := vec.CopyToVec();
    assert damaged[DATA_OFFSET..end] == damaged[..end][DATA_OFFSET..] && mem[DATA_OFFSET..end] == mem[..end][DATA_OFFSET..];
  }

  lemma DamagedWithin(mem: Bytes, damaged: Bytes, at: int)
    requires |mem| == |damaged|
    requires forall i :: 0 <= i < |mem| && !(at <= i < at + 4) ==> damaged[i] == mem[i]
    ensures Within(mem, damaged, at)
  {
  }
}
