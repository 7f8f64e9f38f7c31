/** Bytes, little-endian words and the error values shared by every module. */
module Base {

  type byte = b: int | 0 <= b < 0x100
  type u16 = n: int | 0 <= n < 0x1_0000

  const UINT16_MAX := 0xFFFF

  datatype Option<+T> = None | Some(value: T)

  /** The kHAPError values the modelled functions return. */
  datatype Error = Unknown | InvalidState | InvalidData | OutOfResources | NotAuthorized | Busy

  datatype Result<+T> = Ok(value: T) | Err(error: Error)

  function WriteLittle16(n: u16): (b: seq<byte>)
    ensures |b| == 2 && ReadLittle16(b) == n
  {
    [n % 0x100, n / 0x100]
  }

  function ReadLittle16(b: seq<byte>): (n: u16)
    requires |b| >= 2
  {
    var low: int, high: int := b[0], b[1];
    low + 0x100 * high
  }

  /** The low byte comes first. */
  predicate IsLittleEndian(b: seq<byte>, n: int) {
    |b| == 2 && n == b[0] as int + 0x100 * b[1] as int
  }

  lemma WrittenLittleEndian(n: u16, b: seq<byte>)
    requires |b| == 2
    ensures IsLittleEndian(WriteLittle16(n), n) && IsLittleEndian(b, ReadLittle16(b))
  {
  }

  /** A little-endian word determines its two bytes. */
  lemma ReadLittle16Injective(b: seq<byte>)
    requires |b| == 2
    ensures WriteLittle16(ReadLittle16(b)) == b
  {
    var n := ReadLittle16(b);
    assert n % 0x100 == b[0] && n / 0x100 == b[1];
  }
}
