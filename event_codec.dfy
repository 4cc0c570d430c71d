/**
 * The kernel input-event record read from the mouse device, and its decoder.
 *
 * The record is the "llHHI" block of mouse.py: two signed longs (seconds and
 * microseconds of the timestamp), two unsigned shorts (type and code) and one
 * unsigned int (value).  The model fixes the LP64 little-endian layout without
 * padding, which makes the block 24 bytes long.
 */
module EventCodec {
  import opened Wrappers

  type byte = b: int | 0 <= b < 256

  /** Size of one packed "llHHI" block. */
  const EVENT_SIZE: nat := 24

  const TWO_POW_31: int := 0x8000_0000
  const TWO_POW_32: int := 0x1_0000_0000
  const TWO_POW_63: int := 0x8000_0000_0000_0000
  const TWO_POW_64: int := 0x1_0000_0000_0000_0000

  /** A decoded input event; event time is in microseconds. */
  datatype Event = Event(eventTime: int, eventType: int, eventCode: int, eventValue: int)

  /** The five fields of the packed block, before the timestamp is combined. */
  datatype RawFields = RawFields(tvSec: int, tvUsec: int, evType: int, code: int, value: int)

  datatype DecodeError = InvalidFormat(data: seq<byte>)

  function Pow256(n: nat): (p: nat)
    ensures p >= 1
  {
    if n == 0 then 1 else 256 * Pow256(n - 1)
  }

  /** Unsigned little-endian value of a byte string. */
  function FromLittleEndian(bs: seq<byte>): (x: nat)
    ensures x < Pow256(|bs|)
  {
    if bs == [] then 0 else bs[0] + 256 * FromLittleEndian(bs[1..])
  }

  /** The n-byte little-endian encoding of x. */
  function ToLittleEndian(x: nat, n: nat): (bs: seq<byte>)
    requires x < Pow256(n)
    ensures |bs| == n
  {
    if n == 0 then [] else [x % 256] + ToLittleEndian(x / 256, n - 1)
  }

  lemma {:induction false} LittleEndianRoundTrip(x: nat, n: nat)
    requires x < Pow256(n)
    ensures FromLittleEndian(ToLittleEndian(x, n)) == x
  {
    if n > 0 {
      var bs := ToLittleEndian(x, n);
      assert bs[1..] == ToLittleEndian(x / 256, n - 1);
      LittleEndianRoundTrip(x / 256, n - 1);
    }
  }

  /** Two's-complement reading of an unsigned 64-bit value (a native signed long). */
  function Int64(u: nat): int
  {
    if u >= TWO_POW_63 then u - TWO_POW_64 else u
  }

  predicate FieldsInRange(f: RawFields)
  {
    -TWO_POW_63 <= f.tvSec < TWO_POW_63 &&
    -TWO_POW_63 <= f.tvUsec < TWO_POW_63 &&
    0 <= f.evType < 0x1_0000 &&
    0 <= f.code < 0x1_0000 &&
    0 <= f.value < TWO_POW_32
  }

  /** The event mouse.py builds from five unpacked fields. */
  function EventOf(f: RawFields): Event
  {
    Event(f.tvSec * 1000000 + f.tvUsec, f.evType, f.code, f.value)
  }

  /** struct.unpack("llHHI", block) on a block of exactly EVENT_SIZE bytes. */
  function Unpack(block: seq<byte>): (f: RawFields)
    requires |block| == EVENT_SIZE
    ensures FieldsInRange(f)
  {
    RawFields(
      Int64(FromLittleEndian(block[0..8])),
      Int64(FromLittleEndian(block[8..16])),
      FromLittleEndian(block[16..18]),
      FromLittleEndian(block[18..20]),
      FromLittleEndian(block[20..24]))
  }

  /** struct.pack("llHHI", ...), the inverse of Unpack. */
  function Pack(f: RawFields): (block: seq<byte>)
    requires FieldsInRange(f)
    ensures |block| == EVENT_SIZE
  {
    ToLittleEndian(if f.tvSec < 0 then f.tvSec + TWO_POW_64 else f.tvSec, 8) +
    ToLittleEndian(if f.tvUsec < 0 then f.tvUsec + TWO_POW_64 else f.tvUsec, 8) +
    ToLittleEndian(f.evType, 2) +
    ToLittleEndian(f.code, 2) +
    ToLittleEndian(f.value, 4)
  }

  /**
   * Event.__init__: a block of the packed size decodes to one event whose time
   * combines seconds and microseconds; any other length is refused.
   */
  function Decode(block: seq<byte>): (r: Result<Event, DecodeError>)
    ensures r.Success? <==> |block| == EVENT_SIZE
    ensures r.Failure? ==> r.error == InvalidFormat(block)
    ensures r.Success? ==>
      var f := Unpack(block);
      r.value.eventTime == f.tvSec * 1000000 + f.tvUsec &&
      r.value.eventType == f.evType && r.value.eventCode == f.code &&
      r.value.eventValue == f.value &&
      0 <= r.value.eventValue < TWO_POW_32
  {
    if |block| == EVENT_SIZE then Success(EventOf(Unpack(block)))
    else Failure(InvalidFormat(block))
  }

  lemma {:induction false} UnpackPack(f: RawFields)
    requires FieldsInRange(f)
    ensures Unpack(Pack(f)) == f
  {
    var s := if f.tvSec < 0 then f.tvSec + TWO_POW_64 else f.tvSec;
    var u := if f.tvUsec < 0 then f.tvUsec + TWO_POW_64 else f.tvUsec;
    assert Pow256(2) == 0x1_0000;
    assert Pow256(4) == TWO_POW_32;
    assert Pow256(8) == TWO_POW_64;
    var a, b, c, d, e := ToLittleEndian(s, 8), ToLittleEndian(u, 8),
      ToLittleEndian(f.evType, 2), ToLittleEndian(f.code, 2), ToLittleEndian(f.value, 4);
    var block := Pack(f);
    assert block == a + b + c + d + e;
    assert block[0..8] == a;
    assert block[8..16] == b;
    assert block[16..18] == c;
    assert block[18..20] == d;
    assert block[20..24] == e;
    LittleEndianRoundTrip(s, 8);
    LittleEndianRoundTrip(u, 8);
    LittleEndianRoundTrip(f.evType, 2);
    LittleEndianRoundTrip(f.code, 2);
    LittleEndianRoundTrip(f.value, 4);
  }

  /** Decoding a packed block gives back the fields, with the combined timestamp. */
  lemma DecodePack(f: RawFields)
    requires FieldsInRange(f)
    ensures Decode(Pack(f)) == Success(EventOf(f))
    ensures Decode(Pack(f)).value.eventTime == f.tvSec * 1000000 + f.tvUsec
  {
    UnpackPack(f);
  }

  /** A short read (or any block of another length) is always refused. */
  lemma DecodeRejectsWrongLength(block: seq<byte>)
    requires |block| != EVENT_SIZE
    ensures Decode(block) == Failure(InvalidFormat(block))
  {
  }
}
