/** The code behind the broadcast configuration: a record is edited in place in a local buffer. */
module BroadcastStore {
  import opened Base
  import opened RawBuffer
  import B = BroadcastTable

  method WriteWord(bytes: array<byte>, at: nat, n: u16)
    requires at + 2 <= bytes.Length
    modifies bytes
    ensures bytes[at..at + 2] == WriteLittle16(n)
    ensures forall k :: 0 <= k < bytes.Length && !(at <= k < at + 2) ==> bytes[k] == old(bytes[k])
  {
    var w := WriteLittle16(n);
    bytes[at], bytes[at + 1] := w[0], w[1];
  }

  /**
    The scan shared by all operations, with its early exit: `i` is the offset at which it stops,
    `found` whether the characteristic is there.
  */
  method Find(bytes: array<byte>, numBytes: nat, cid: u16) returns (i: nat, found: bool)
    requires numBytes <= bytes.Length && B.IsRecord(bytes[..numBytes])
    ensures var items := B.Items(bytes[..numBytes]);
            i == 2 + 3 * B.Position(items, cid, 0) && found == B.Has(items, cid)
  {
    ghost var b := bytes[..numBytes];
    ghost var items := B.Items(b);
    i := 2;
    while i < numBytes
      invariant 2 <= i <= numBytes && (i - 2) % 3 == 0
      invariant B.Position(items, cid, 0) == B.Position(items, cid, (i - 2) / 3)
    {
      assert items[(i - 2) / 3] == B.ItemAt(b, (i - 2) / 3);
      var itemCid := ReadLittle16([bytes[i], bytes[i + 1]]);
      if itemCid < cid {
        i := i + 3;
        continue;
      }
      return i, itemCid == cid;
    }
    found := false;
  }

  class Store {
    /** The record under the one key of the characteristic configuration domain. */
    var record: Option<seq<byte>>

    constructor ()
      ensures record == None
    {
      record := None;
    }

    /** The number of bytes loaded, None when there is no record of this accessory. */
    method Load(bytes: array<byte>, io: B.Io) returns (r: Result<Option<nat>>)
      requires bytes.Length == B.BUFFER_BYTES
      modifies bytes
      ensures r.Err? <==> B.Load(record, io).Err?
      ensures r.Err? ==> r.error == Unknown
      ensures r.Ok? ==> (r.value.Some? <==> B.Load(record, io).value.Some?)
      ensures r.Ok? && r.value.Some? ==> r.value.value < bytes.Length && Some(bytes[..r.value.value]) == record
    {
      if io.readFails {
        return Err(Unknown);
      }
      if record.None? {
        return Ok(None);
      }
      var stored := record.value;
      var numBytes := if |stored| < bytes.Length then |stored| else bytes.Length;
      forall k | 0 <= k < numBytes {
        bytes[k] := stored[k];
      }
      if numBytes < 2 || numBytes == bytes.Length || (numBytes - 2) % 3 != 0 {
        return Err(Unknown);
      }
      if ReadLittle16([bytes[0], bytes[1]]) != B.AID {
        return Ok(None);
      }
      assert bytes[..numBytes] == stored;
      return Ok(Some(numBytes));
    }

    /** None when broadcasts are disabled. */
    method GetConfiguration(cid: u16, io: B.Io) returns (r: Result<Option<byte>>)
      ensures r == B.Get(record, cid, io)
    {
      var bytes := new byte[B.BUFFER_BYTES];
      var loaded := Load(bytes, io);
      if loaded.Err? {
        return Err(loaded.error);
      }
      if loaded.value.None? {
        return Ok(None);
      }
      var numBytes := loaded.value.value;
      var i, found := Find(bytes, numBytes, cid);
      if found {
        var interval := bytes[i + 2];
        if !B.IsValidInterval(interval) {
          return Err(Unknown);
        }
        return Ok(Some(interval));
      }
      return Ok(None);
    }

    method EnableNotifications(cid: u16, interval: byte, io: B.Io) returns (error: Option<Error>)
      requires B.IsValidInterval(interval)
      modifies this
      ensures (record, error) == B.Enable(old(record), cid, interval, io)
    {
      var bytes := new byte[B.BUFFER_BYTES];
      var loaded := Load(bytes, io);
      if loaded.Err? {
        return Some(loaded.error);
      }
      var numBytes;
      if loaded.value.Some? {
        numBytes := loaded.value.value;
      } else {
        WriteWord(bytes, 0, B.AID);
        numBytes := 2;
      }
      ghost var b := bytes[..numBytes];
      assert b == if B.Load(record, io).value.None? then WriteLittle16(B.AID) else record.value;
      var i, found := Find(bytes, numBytes, cid);
      if found {
        error := UpdateAt(bytes, numBytes, i, interval, io);
      } else {
        error := AddAt(bytes, numBytes, i, cid, interval, io);
      }
    }

    /** The characteristic is at offset `i` already. */
    method UpdateAt(bytes: array<byte>, numBytes: nat, i: nat, interval: byte, io: B.Io) returns (error: Option<Error>)
      requires i + 2 < numBytes <= bytes.Length && (i - 2) % 3 == 0 && i >= 2
      modifies `record, bytes
      ensures var b := old(bytes[..numBytes]);
              (record, error) == B.Apply(old(record),
                if !B.IsValidInterval(b[i + 2]) then B.Refused
                else if b[i + 2] == interval then B.Unchanged
                else B.Changed(B.Overwritten(b, (i - 2) / 3, interval)), io)
    {
      var current := bytes[i + 2];
      if !B.IsValidInterval(current) {
        return Some(Unknown);
      }
      if current == interval {
        return None;
      }
      bytes[i + 2] := interval;
      assert bytes[..numBytes] == B.Overwritten(old(bytes[..numBytes]), (i - 2) / 3, interval);
      if io.writeFails {
        return Some(Unknown);
      }
      record := Some(bytes[..numBytes]);
      return None;
    }

    /** Makes room at offset `i`. */
    method AddAt(bytes: array<byte>, numBytes: nat, i: nat, cid: u16, interval: byte, io: B.Io)
      returns (error: Option<Error>)
      requires bytes.Length == B.BUFFER_BYTES && 2 <= i <= numBytes <= bytes.Length && (i - 2) % 3 == 0
      modifies `record, bytes
      ensures var b := old(bytes[..numBytes]);
              (record, error) == B.Apply(old(record),
                if numBytes >= B.BUFFER_BYTES - 1 - 3 then B.Refused
                else B.Changed(B.Inserted(b, (i - 2) / 3, B.Item(cid, interval))), io)
    {
      if numBytes >= bytes.Length - 1 - 3 {
        return Some(Unknown);
      }
      MoveBytes(bytes, i + 3, i, numBytes - i);
      WriteWord(bytes, i, cid);
      bytes[i + 2] := interval;
      var added := numBytes + 3;
      assert bytes[..added] == old(bytes[..i]) + (WriteLittle16(cid) + [interval]) + old(bytes[i..numBytes]) by {
        assert bytes[i..i + 3] == WriteLittle16(cid) + [interval];
        assert bytes[i + 3..added] == old(bytes[i..numBytes]);
      }
      assert old(bytes[..i]) == old(bytes[..numBytes])[..i] && old(bytes[i..numBytes]) == old(bytes[..numBytes])[i..];
      if io.writeFails {
        return Some(Unknown);
      }
      record := Some(bytes[..added]);
      return None;
    }

    method DisableNotifications(cid: u16, io: B.Io) returns (error: Option<Error>)
      modifies this
      ensures (record, error) == B.Disable(old(record), cid, io)
    {
      var bytes := new byte[B.BUFFER_BYTES];
      var loaded := Load(bytes, io);
      if loaded.Err? {
        return Some(loaded.error);
      }
      if loaded.value.None? {
        return None;
      }
      var numBytes := loaded.value.value;
      var i, found := Find(bytes, numBytes, cid);
      if found {
        error := RemoveAt(bytes, numBytes, i, io);
      } else {
        error := None;
      }
    }

    /** Closes the gap at offset `i`; the last characteristic takes the whole record with it. */
    method RemoveAt(bytes: array<byte>, numBytes: nat, i: nat, io: B.Io) returns (error: Option<Error>)
      requires 2 <= i && i + 3 <= numBytes <= bytes.Length && (i - 2) % 3 == 0
      modifies `record, bytes
      ensures var b := old(bytes[..numBytes]);
              (record, error) == B.Apply(old(record),
                if !B.IsValidInterval(b[i + 2]) then B.Refused
                else B.Changed(B.Removed(b, (i - 2) / 3)), io)
    {
      if !B.IsValidInterval(bytes[i + 2]) {
        return Some(Unknown);
      }
      var left := numBytes - 3;
      MoveBytes(bytes, i, i + 3, left - i);
      assert bytes[..left] == old(bytes[..i]) + old(bytes[i + 3..numBytes]);
      assert old(bytes[..i]) == old(bytes[..numBytes])[..i];
      assert old(bytes[i + 3..numBytes]) == old(bytes[..numBytes])[i + 3..];
      if io.writeFails {
        return Some(Unknown);
      }
      record := if left == 2 then None else Some(bytes[..left]);
      return None;
    }
  }
}
