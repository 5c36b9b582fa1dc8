/** The raw inotify read buffer and the record walk over it.

    Each record is a Linux `struct inotify_event` as described in inotify(7):
    a 16-byte header (`int32 wd`, `uint32 mask`, `uint32 cookie`,
    `uint32 len`), followed by exactly `len` name bytes (a NUL-terminated
    name padded with further NULs). Fields are in host byte order; the model
    fixes little-endian. */
module InotifyRecord {

  newtype uint8 = x: int | 0 <= x < 0x100
  newtype uint32 = x: int | 0 <= x < 0x1_0000_0000
  newtype int32 = x: int | -0x8000_0000 <= x < 0x8000_0000

  type Bytes = seq<uint8>

  /** sizeof(struct inotify_event): the name bytes are not counted. */
  const HeaderSize: nat := 16

  /** One decoded record; its `len` field is `|name|`. */
  datatype Record = Record(wd: int32, mask: uint32, cookie: uint32, name: Bytes)

  /** A record whose name length fits the 32-bit `len` field. */
  predicate Encodable(r: Record) {
    |r.name| < 0x1_0000_0000
  }

  function StoreU32(x: uint32): (b: Bytes)
    ensures |b| == 4
  {
    var q1 := x as int / 0x100;
    var q2 := q1 / 0x100;
    var q3 := q2 / 0x100;
    [(x as int % 0x100) as uint8, (q1 % 0x100) as uint8, (q2 % 0x100) as uint8, q3 as uint8]
  }

  function LoadU32(b: Bytes, at: nat): uint32
    requires at + 4 <= |b|
  {
    (b[at] as int + 0x100 * (b[at + 1] as int + 0x100 * (b[at + 2] as int + 0x100 * b[at + 3] as int))) as uint32
  }

  /** Loading what was stored gives the value back. */
  lemma LoadStoreU32(x: uint32)
    ensures LoadU32(StoreU32(x), 0) == x
  {
    var q1 := x as int / 0x100;
    var q2 := q1 / 0x100;
    var q3 := q2 / 0x100;
    assert x as int == x as int % 0x100 + 0x100 * q1;
    assert q1 == q1 % 0x100 + 0x100 * q2;
    assert q2 == q2 % 0x100 + 0x100 * q3;
  }

  /** Storing what was loaded gives the four bytes back. */
  lemma StoreLoadU32(b: Bytes, at: nat)
    requires at + 4 <= |b|
    ensures StoreU32(LoadU32(b, at)) == b[at..at + 4]
  {
    var x := LoadU32(b, at) as int;
    var r1 := b[at + 1] as int + 0x100 * (b[at + 2] as int + 0x100 * b[at + 3] as int);
    var r2 := b[at + 2] as int + 0x100 * b[at + 3] as int;
    assert x == b[at] as int + 0x100 * r1;
    assert x / 0x100 == r1 && x % 0x100 == b[at] as int;
    assert r1 / 0x100 == r2 && r1 % 0x100 == b[at + 1] as int;
    assert r2 / 0x100 == b[at + 3] as int && r2 % 0x100 == b[at + 2] as int;
  }

  /** The two's-complement bits of a watch descriptor, and back. */
  function WdBits(wd: int32): uint32 {
    if wd < 0 then (wd as int + 0x1_0000_0000) as uint32 else wd as int as uint32
  }

  function WdOfBits(u: uint32): (wd: int32)
    ensures WdBits(wd) == u
  {
    if u < 0x8000_0000 then u as int as int32 else (u as int - 0x1_0000_0000) as int32
  }

  /** The header bytes of one record, then its name bytes. */
  function Encode(r: Record): (b: Bytes)
    requires Encodable(r)
    ensures |b| == HeaderSize + |r.name|
    ensures b[HeaderSize..] == r.name
  {
    StoreU32(WdBits(r.wd)) + StoreU32(r.mask) + StoreU32(r.cookie)
      + StoreU32(|r.name| as uint32) + r.name
  }

  /** Records laid out back to back, as one `read` returns them. */
  function EncodeAll(rs: seq<Record>): (b: Bytes)
    requires forall i :: 0 <= i < |rs| ==> Encodable(rs[i])
  {
    if |rs| == 0 then [] else Encode(rs[0]) + EncodeAll(rs[1..])
  }

  /** The records decoded from a buffer, and any trailing bytes that do not
      form a complete record. */
  datatype Decoded = Decoded(records: seq<Record>, rest: Bytes)

  /** Whether `b` starts with a complete record: a whole header, and then at
      least as many bytes as its `len` field announces. */
  predicate StartsWithRecord(b: Bytes) {
    HeaderSize <= |b| && HeaderSize + LoadU32(b, 12) as int <= |b|
  }

  /** The record at the front of `b`. */
  function Head(b: Bytes): (r: Record)
    requires StartsWithRecord(b)
    ensures Encodable(r)
    ensures |r.name| == LoadU32(b, 12) as int
    ensures HeaderSize + |r.name| <= |b|
    ensures b[..HeaderSize + |r.name|] == Encode(r)
  {
    var len := LoadU32(b, 12) as int;
    var r := Record(WdOfBits(LoadU32(b, 0)), LoadU32(b, 4), LoadU32(b, 8), b[HeaderSize..HeaderSize + len]);
    StoreLoadU32(b, 0);
    StoreLoadU32(b, 4);
    StoreLoadU32(b, 8);
    StoreLoadU32(b, 12);
    assert b[..HeaderSize + len] == b[0..4] + b[4..8] + b[8..12] + b[12..16] + b[HeaderSize..HeaderSize + len];
    r
  }

  /** The monitoring thread's walk over one buffer: read the header at the
      current offset, step over the header and `len` name bytes, repeat
      until the end. Every byte belongs to exactly one record, in order,
      except a trailing partial record, which is left in `rest`. */
  function Walk(b: Bytes): (d: Decoded)
    ensures forall i :: 0 <= i < |d.records| ==> Encodable(d.records[i])
    ensures EncodeAll(d.records) + d.rest == b
    ensures !StartsWithRecord(d.rest)
    decreases |b|
  {
    if !StartsWithRecord(b) then Decoded([], b)
    else
      var r := Head(b);
      var n := HeaderSize + |r.name|;
      var d := Walk(b[n..]);
      WalkStep(b, n, r, d);
      Decoded([r] + d.records, d.rest)
  }

  /** Putting one record in front of the remainder's decoding rebuilds the
      whole buffer. */
  lemma WalkStep(b: Bytes, n: nat, r: Record, d: Decoded)
    requires Encodable(r)
    requires n == HeaderSize + |r.name| <= |b|
    requires b[..n] == Encode(r)
    requires forall i :: 0 <= i < |d.records| ==> Encodable(d.records[i])
    requires EncodeAll(d.records) + d.rest == b[n..]
    ensures EncodeAll([r] + d.records) + d.rest == b
  {
    var rs := [r] + d.records;
    assert rs[1..] == d.records;
    assert EncodeAll(rs) == Encode(r) + EncodeAll(d.records);
    assert b == b[..n] + b[n..];
    assert EncodeAll(rs) + d.rest == Encode(r) + (EncodeAll(d.records) + d.rest);
  }

  /** Decoding a buffer of whole records gives back exactly those records. */
  lemma {:induction false} WalkEncodeAll(rs: seq<Record>)
    requires forall i :: 0 <= i < |rs| ==> Encodable(rs[i])
    ensures Walk(EncodeAll(rs)) == Decoded(rs, [])
  {
    if |rs| == 0 {
      assert !StartsWithRecord([]);
    } else {
      var r := rs[0];
      var b := EncodeAll(rs);
      var e := Encode(r);
      assert b == e + EncodeAll(rs[1..]);
      LoadStoreU32(|r.name| as uint32);
      assert e[12..16] == StoreU32(|r.name| as uint32);
      assert LoadU32(b, 12) == LoadU32(e[12..16], 0);
      assert StartsWithRecord(b);
      var h := Head(b);
      LoadStoreU32(WdBits(r.wd));
      LoadStoreU32(r.mask);
      LoadStoreU32(r.cookie);
      assert LoadU32(b, 0) == LoadU32(e[0..4], 0);
      assert LoadU32(b, 4) == LoadU32(e[4..8], 0);
      assert LoadU32(b, 8) == LoadU32(e[8..12], 0);
      assert h.name == r.name;
      assert h == r;
      assert b[HeaderSize + |r.name|..] == EncodeAll(rs[1..]);
      WalkEncodeAll(rs[1..]);
    }
  }

  /** The walk is exact: it decodes `b` to `rs` with nothing left over if
      and only if `b` is the back-to-back encoding of `rs`. */
  lemma WalkExact(b: Bytes, rs: seq<Record>)
    requires forall i :: 0 <= i < |rs| ==> Encodable(rs[i])
    ensures Walk(b) == Decoded(rs, []) <==> b == EncodeAll(rs)
  {
    if b == EncodeAll(rs) {
      WalkEncodeAll(rs);
    }
    if Walk(b) == Decoded(rs, []) {
      assert EncodeAll(rs) + [] == b;
    }
  }
}
