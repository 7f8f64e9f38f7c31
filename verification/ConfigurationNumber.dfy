/**
  The configuration number: stored as 32 bits, reported as 16 bits (IP) and 8 bits (BLE). Both
  shorter numbers are derived from the stored one and must wrap on their own, exactly in step.
*/
module ConfigurationNumber {
  import opened Base
  import opened Cyclic

  type u32 = n: int | 0 <= n < 0x1_0000_0000

  const UINT32_MAX := 0xFFFF_FFFF
  const UINT8_MAX := 0xFF

  function WriteLittle32(n: u32): (b: seq<byte>)
    ensures |b| == 4 && ReadLittle32(b) == n
  {
    var high := n / 0x1_0000;
    [n % 0x100, n / 0x100 % 0x100, high % 0x100, high / 0x100]
  }

  function ReadLittle32(b: seq<byte>): u32
    requires |b| >= 4
  {
    var b0: int, b1: int, b2: int, b3: int := b[0], b[1], b[2], b[3];
    b0 + 0x100 * b1 + 0x1_0000 * b2 + 0x100_0000 * b3
  }

  /** The lowest byte comes first. */
  lemma WrittenLittleEndian(n: u32)
    ensures var b := WriteLittle32(n);
            b[0] as int + 0x100 * b[1] as int + 0x1_0000 * b[2] as int + 0x100_0000 * b[3] as int == n
  {
  }

  /** The number a well-formed record stands for; a missing record is 1. */
  function Stored(record: Option<seq<byte>>): u32
    requires record.Some? ==> |record.value| >= 4
  {
    if record.None? then 1 else ReadLittle32(record.value)
  }

  /** A record as this code writes it: four bytes, never 0. */
  predicate WellFormed(record: Option<seq<byte>>) {
    record.Some? ==> |record.value| == 4 && ReadLittle32(record.value) != 0
  }

  /** The 32-bit counter and its projections wrap together. */
  lemma ProjectionSteps(x: nat)
    requires 1 <= x <= UINT32_MAX
    ensures Project(UINT16_MAX, Succ(UINT32_MAX, x)) == Succ(UINT16_MAX, Project(UINT16_MAX, x))
    ensures Project(UINT8_MAX, Succ(UINT32_MAX, x)) == Succ(UINT8_MAX, Project(UINT8_MAX, x))
  {
    if x < UINT32_MAX {
      Step16(x - 1);
      Step8(x - 1);
    }
  }

  lemma Step16(n: nat)
    ensures (n + 1) % UINT16_MAX == if n % UINT16_MAX == UINT16_MAX - 1 then 0 else n % UINT16_MAX + 1
  {
  }

  lemma Step8(n: nat)
    ensures (n + 1) % UINT8_MAX == if n % UINT8_MAX == UINT8_MAX - 1 then 0 else n % UINT8_MAX + 1
  {
  }

  /** The 8-bit number is the same whether taken from 16 or from 32 bits. */
  lemma ProjectionsCompose(x: nat)
    requires 1 <= x
    ensures Project(UINT8_MAX, Project(UINT16_MAX, x)) == Project(UINT8_MAX, x)
  {
    var n := x - 1;
    assert n == 257 * 255 * (n / 65535) + n % 65535;
  }

  /**
    Over any number of increments from 1 the three numbers each run through their own cycle: none is
    ever 0, and each takes its own successor at every step, also where the 32-bit number wraps.
  */
  lemma {:induction false} NumbersAdvance(k: nat)
    ensures var cn := Advance(UINT32_MAX, 1, k);
            && Project(UINT16_MAX, cn) == Advance(UINT16_MAX, 1, k)
            && Project(UINT8_MAX, Project(UINT16_MAX, cn)) == Advance(UINT8_MAX, 1, k)
  {
    if k > 0 {
      NumbersAdvance(k - 1);
      var cn := Advance(UINT32_MAX, 1, k - 1);
      ProjectionSteps(cn);
      ProjectionsCompose(cn);
      ProjectionsCompose(Succ(UINT32_MAX, cn));
    }
  }

  /** The cast (uint8_t)((cn - 1) % UINT8_MAX + 1). */
  function Downscale(cn: u16): (b: byte)
    requires cn >= 1
    ensures b == Project(UINT8_MAX, cn)
  {
    (cn - 1) % UINT8_MAX + 1
  }

  /** The cast (uint16_t)((cn32 - 1) % UINT16_MAX + 1), in 32-bit arithmetic. */
  function Downscale16(cn32: u32): (cn: u16)
    ensures cn >= 1 && (cn32 >= 1 ==> cn == Project(UINT16_MAX, cn32))
  {
    (cn32 - 1) % 0x1_0000_0000 % 65535 + 1
  }

  /** The four bytes on the stack once a record has been read into them: a short one leaves the rest alone. */
  function Loaded(record: Option<seq<byte>>, uninitialized: seq<byte>): (b: seq<byte>)
    requires |uninitialized| == 4
    ensures |b| == 4
    ensures WellFormed(record) ==> ReadLittle32(b) == Stored(record)
  {
    if record.None? then WriteLittle32(1)
    else if |record.value| >= 4 then record.value[..4]
    else record.value + uninitialized[|record.value|..]
  }

  /** The stored record, and whether the accesses to it fail. */
  class Store {
    var record: Option<seq<byte>>

    constructor ()
      ensures record == None
    {
      record := None;
    }

    /** The stored number as four bytes; the first call creates the record. */
    method LoadCN(readFails: bool, writeFails: bool) returns (r: Result<seq<byte>>)
      modifies this
      ensures WellFormed(old(record)) ==> WellFormed(record) && Stored(record) == Stored(old(record))
      ensures r == if readFails || (writeFails && old(record).None?) || (old(record).Some? && |old(record).value| < 4)
                   then Err(Unknown) else Ok(if old(record).None? then WriteLittle32(1) else old(record).value[..4])
      ensures if old(record).Some? || r.Err? then record == old(record) else record == Some(WriteLittle32(1))
    {
      if readFails {
        return Err(Unknown);
      }
      if record.None? {
        if writeFails {
          return Err(Unknown);
        }
        record := Some(WriteLittle32(1));
        return Ok(WriteLittle32(1));
      }
      if |record.value| < 4 {
        return Err(Unknown);
      }
      return Ok(record.value[..4]);
    }

    /** The 16-bit number. */
    method GetCN(readFails: bool, writeFails: bool) returns (r: Result<u16>)
      modifies this
      ensures WellFormed(old(record)) ==> WellFormed(record) && Stored(record) == Stored(old(record))
      ensures WellFormed(old(record)) ==>
                r == if readFails || (writeFails && old(record).None?) then Err(Unknown)
                     else Ok(Project(UINT16_MAX, Stored(record)))
      ensures r.Ok? ==> r.value >= 1 && record.Some?
      ensures !readFails && old(record).Some? && |old(record).value| < 4 ==> r == Err(Unknown) && record == old(record)
    {
      var cnBytes := LoadCN(readFails, writeFails);
      if cnBytes.Err? {
        return Err(cnBytes.error);
      }
      var cn32 := ReadLittle32(cnBytes.value);
      return Ok(Downscale16(cn32));
    }

    /** The single byte put into advertisements and protocol configuration responses. */
    method GetCN8(readFails: bool, writeFails: bool) returns (r: Result<byte>)
      modifies this
      ensures WellFormed(old(record)) ==> WellFormed(record) && Stored(record) == Stored(old(record))
      ensures WellFormed(old(record)) ==>
                r == if readFails || (writeFails && old(record).None?) then Err(Unknown)
                     else Ok(Project(UINT8_MAX, Stored(record)))
      ensures r.Ok? ==> record.Some?
      ensures !readFails && old(record).Some? && |old(record).value| < 4 ==> r == Err(Unknown) && record == old(record)
    {
      var cn := GetCN(readFails, writeFails);
      if cn.Err? {
        return Err(cn.error);
      }
      var cn8: byte := Downscale(cn.value);
      if WellFormed(record) {
        ProjectionsCompose(Stored(record));
      }
      return Ok(cn8);
    }

    /** The length of the record is not checked: what a short one amounts to depends on `uninitialized`. */
    method IncrementCN(readFails: bool, writeFails: bool, uninitialized: seq<byte>) returns (error: Option<Error>)
      requires |uninitialized| == 4
      modifies this
      ensures error == if readFails || writeFails then Some(Unknown) else None
      ensures error.Some? ==> record == old(record)
      ensures error.None? ==> WellFormed(record) && record.Some?
      ensures error.None? ==>
                var cn32 := ReadLittle32(Loaded(old(record), uninitialized));
                Stored(record) == if cn32 == 0 then 1 else Succ(UINT32_MAX, cn32)
      ensures error.None? && WellFormed(old(record)) ==> Stored(record) == Succ(UINT32_MAX, Stored(old(record)))
    {
      if readFails {
        return Some(Unknown);
      }
      var cnBytes := Loaded(record, uninitialized);
      var cn32 := ReadLittle32(cnBytes);
      if cn32 == UINT32_MAX {
        cn32 := 1;
      } else {
        cn32 := cn32 + 1;
      }
      cnBytes := WriteLittle32(cn32);
      if writeFails {
        return Some(Unknown);
      }
      record := Some(cnBytes);
      return None;
    }
  }
}
