/** Reading the focused window's PID out of its `_NET_WM_PID` property: the
    32-bit CARDINAL arrives as bytes, least significant first (lines 132-140). */
module WindowPid {
  import opened Processes

  /** `uint32(v[0]) | uint32(v[1])<<8 | uint32(v[2])<<16 | uint32(v[3])<<24`. */
  function AssemblePid(v: seq<bv8>): (pid: bv32)
    requires |v| >= 4
  {
    (v[0] as bv32) | ((v[1] as bv32) << 8) | ((v[2] as bv32) << 16) | ((v[3] as bv32) << 24)
  }

  /** The little-endian value of the first four bytes, in integer arithmetic. */
  function LittleEndian(v: seq<bv8>): (n: int)
    requires |v| >= 4
  {
    v[0] as int + 0x100 * (v[1] as int) + 0x1_0000 * (v[2] as int) + 0x100_0000 * (v[3] as int)
  }

  /** The four bytes of a 32-bit value, least significant first. */
  function PidBytes(x: bv32): (v: seq<bv8>)
    ensures |v| == 4
  {
    [(x & 0xFF) as bv8, ((x >> 8) & 0xFF) as bv8, ((x >> 16) & 0xFF) as bv8, ((x >> 24) & 0xFF) as bv8]
  }

  /** One step of the little-endian reading: a byte below a value of at
      most 24 bits shifted up by eight. */
  lemma ByteBelow(b: bv8, y: bv32, n: int, x: bv32)
    requires y < 0x100_0000 && y as int == n
    requires x == (b as bv32) | (y << 8)
    ensures x as int == b as int + 0x100 * n
  {
  }

  /** The upper two bytes, `v[2] | v[3] << 8`. */
  function High16(v: seq<bv8>): (h: bv32)
    requires |v| >= 4
  {
    (v[2] as bv32) | ((v[3] as bv32) << 8)
  }

  /** The upper three bytes, `v[1] | High16(v) << 8`. */
  function High24(v: seq<bv8>): (h: bv32)
    requires |v| >= 4
  {
    (v[1] as bv32) | (High16(v) << 8)
  }

  lemma High16Value(v: seq<bv8>)
    requires |v| >= 4
    ensures High16(v) as int == v[2] as int + 0x100 * (v[3] as int)
  {
    ByteBelow(v[2], v[3] as bv32, v[3] as int, High16(v));
  }

  lemma High24Value(v: seq<bv8>)
    requires |v| >= 4
    ensures High24(v) as int == v[1] as int + 0x100 * (v[2] as int + 0x100 * (v[3] as int))
  {
    High16Value(v);
    assert High16(v) < 0x1_0000;
    ByteBelow(v[1], High16(v), v[2] as int + 0x100 * (v[3] as int), High24(v));
  }

  lemma AssemblePidSplit(v: seq<bv8>)
    requires |v| >= 4
    ensures AssemblePid(v) == (v[0] as bv32) | (High24(v) << 8)
    ensures High24(v) < 0x100_0000
  {
  }

  /** The Go expression's integer value, read byte by byte from the top. */
  lemma AssemblePidHorner(v: seq<bv8>)
    requires |v| >= 4
    ensures AssemblePid(v) as int
      == v[0] as int + 0x100 * (v[1] as int + 0x100 * (v[2] as int + 0x100 * (v[3] as int)))
  {
    High24Value(v);
    AssemblePidSplit(v);
    ByteBelow(v[0], High24(v), v[1] as int + 0x100 * (v[2] as int + 0x100 * (v[3] as int)), AssemblePid(v));
  }

  /** The bit assembly is the little-endian sum, which is below 2^32. */
  lemma AssemblePidValue(v: seq<bv8>)
    requires |v| >= 4
    ensures AssemblePid(v) as int == LittleEndian(v)
    ensures 0 <= LittleEndian(v) < 0x1_0000_0000
  {
    AssemblePidHorner(v);
  }

  /** Assembling the bytes of a value gives the value back. */
  lemma AssemblePidBytes(x: bv32)
    ensures AssemblePid(PidBytes(x)) == x
  {
  }

  /** Splitting an assembled value gives back the four bytes it came from. */
  lemma BytesOfAssembledPid(v: seq<bv8>)
    requires |v| >= 4
    ensures PidBytes(AssemblePid(v)) == v[..4]
  {
  }

  /** The part of the GetProperty reply the PID is read from: `valueLen`
      counts items of the property's format, `value` holds the bytes. */
  datatype PropertyReply = PropertyReply(valueLen: nat, value: seq<bv8>)

  /** Lines 132-142 as written: only an empty property is rejected. A value of
      fewer than four bytes makes `Value[1..3]` panic, which the precondition records. */
  function PidFromReplyAsWritten(reply: PropertyReply): (r: Result<bv32>)
    requires reply.valueLen != 0 ==> |reply.value| >= 4
    ensures r.Err? <==> reply.valueLen == 0
    ensures r.Err? ==> r.error == PropertyNotSet
    ensures r.Ok? ==> r.value as int == LittleEndian(reply.value)
  {
    if reply.valueLen == 0 then Err(PropertyNotSet)
    else
      AssemblePidValue(reply.value);
      Ok(AssemblePid(reply.value))
  }

  /** A CARDINAL property of format 8 holding one item passes the guard at
      line 132, yet the code as written cannot decode it: its precondition,
      which records the indexing of four bytes, rejects the reply. The checked
      decoder reports it as too short. */
  lemma ShortReplyPassesGuard()
    ensures var reply := PropertyReply(1, [0x2A]);
      && reply.valueLen != 0
      && !PidFromReplyAsWritten.requires(reply)
      && PidFromReply(reply) == Err(PropertyTooShort)
  {
  }

  /** The PID decoder with the length check the indexing needs: an empty
      property and a property of fewer than four bytes are both errors. */
  function PidFromReply(reply: PropertyReply): (r: Result<bv32>)
    ensures r.Ok? <==> reply.valueLen != 0 && |reply.value| >= 4
    ensures reply.valueLen == 0 ==> r == Err(PropertyNotSet)
    ensures reply.valueLen != 0 && |reply.value| < 4 ==> r == Err(PropertyTooShort)
    ensures r.Ok? ==> r.value as int == LittleEndian(reply.value)
  {
    if reply.valueLen == 0 then Err(PropertyNotSet)
    else if |reply.value| < 4 then Err(PropertyTooShort)
    else
      AssemblePidValue(reply.value);
      Ok(AssemblePid(reply.value))
  }

  /** Wherever the code as written does not panic, the checked decoder agrees with it. */
  lemma PidFromReplyAgrees(reply: PropertyReply)
    requires reply.valueLen != 0 ==> |reply.value| >= 4
    ensures PidFromReply(reply) == PidFromReplyAsWritten(reply)
  {
  }

  /** A 32-bit PID stored as its four little-endian bytes is read back unchanged. */
  lemma PidFromReplyRoundTrip(x: bv32, valueLen: nat)
    requires valueLen != 0
    ensures PidFromReply(PropertyReply(valueLen, PidBytes(x))) == Ok(x)
  {
    AssemblePidBytes(x);
  }
}
