/**
 * Shared definitions of the B+tree toolkit: the return codes of the page
 * store and the index, the machine integer and byte types, the 4-byte
 * little-endian encoding that `memcpy` of an `int` produces on the x86
 * build, and the record locator handed out by the record store.
 */
module BPBase {

  // Return codes (BPBase.h). Every operation returns 0 on success.
  const RC_FILE_OPEN_FAILED: int := -1001
  const RC_FILE_CLOSE_FAILED: int := -1002
  const RC_FILE_SEEK_FAILED: int := -1003
  const RC_FILE_READ_FAILED: int := -1004
  const RC_FILE_WRITE_FAILED: int := -1005
  const RC_INVALID_FILE_MODE: int := -1006
  const RC_INVALID_PID: int := -1007
  const RC_INVALID_RID: int := -1008
  const RC_INVALID_FILE_FORMAT: int := -1009
  const RC_NODE_FULL: int := -1010
  const RC_INVALID_CURSOR: int := -1011
  const RC_NO_SUCH_RECORD: int := -1012
  const RC_END_OF_TREE: int := -1013
  const RC_INVALID_ATTRIBUTE: int := -1014
  const RC_FILE_READ_ONLY: int := -1015

  type Byte = b: int | 0 <= b < 256

  const INT32_MIN: int := -0x8000_0000
  const INT32_MAX: int := 0x7FFF_FFFF

  /** A C `int` on the 32-bit build. */
  type Int32 = x: int | INT32_MIN <= x <= INT32_MAX

  /**
   * The record locator of the record store: a page and a slot inside it.
   * RecordFile.h is not part of this model; the index never looks inside.
   */
  datatype RecordId = RecordId(pid: Int32, sid: Int32)

  /** The four bytes `memcpy` copies out of an `int`, least significant first. */
  function EncodeInt32(x: Int32): (b: seq<Byte>)
    ensures |b| == 4
  {
    var u := if x < 0 then x + 0x1_0000_0000 else x;
    [u % 0x100, (u / 0x100) % 0x100, (u / 0x1_0000) % 0x100, u / 0x100_0000]
  }

  /** The `int` that `memcpy` rebuilds from four bytes. */
  function DecodeInt32(b: seq<Byte>): Int32
    requires |b| == 4
  {
    var u: int := b[0] as int + 0x100 * (b[1] as int) + 0x1_0000 * (b[2] as int) + 0x100_0000 * (b[3] as int);
    if u > INT32_MAX then u - 0x1_0000_0000 else u
  }

  lemma DigitsRecompose(u: int)
    requires 0 <= u < 0x1_0000_0000
    ensures u % 0x100 + 0x100 * ((u / 0x100) % 0x100)
          + 0x1_0000 * ((u / 0x1_0000) % 0x100) + 0x100_0000 * (u / 0x100_0000) == u
    ensures u / 0x100_0000 < 0x100
  {
    var a, q1 := u % 0x100, u / 0x100;
    var b, q2 := q1 % 0x100, q1 / 0x100;
    var c, d := q2 % 0x100, q2 / 0x100;
    assert u == a + 0x100 * q1;
    assert q1 == b + 0x100 * q2;
    assert q2 == c + 0x100 * d;
    assert q2 == u / 0x1_0000;
    assert d == u / 0x100_0000;
  }

  /** Writing an `int` into four bytes and reading it back gives the same `int`. */
  lemma Int32RoundTrip(x: Int32)
    ensures DecodeInt32(EncodeInt32(x)) == x
  {
    var u := if x < 0 then x + 0x1_0000_0000 else x;
    DigitsRecompose(u);
  }
}
