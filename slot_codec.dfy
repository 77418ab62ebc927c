/**
 * Layout of one record in EEPROM: REC_SIZE bytes at `start_addr + r*rec_size`,
 * bit 7 of the last byte being the service flag (Log_ReadFlag, LOG_FLAG_MASK,
 * Log_ReadRec and the last-byte packing of Log_NoblockingWrite).
 */
module SlotCodec {
  import opened Ring

  /** A value the logger keeps in Log_CurFlag: the mask bit alone, or nothing. */
  predicate IsFlag(f: bv8)
  {
    f == 0 || f == FLAG_MASK
  }

  /** Log_ReadFlag applied to a byte already read: `LOG_FLAG_MASK & byte`. */
  function ReadFlag(b: bv8): (f: bv8)
    ensures IsFlag(f)
  {
    FLAG_MASK & b
  }

  /** `(unsigned char)~LOG_FLAG_MASK & byte`: the byte with its flag bit cleared. */
  function Unflag(b: bv8): (u: bv8)
    ensures u < 0x80
    ensures ReadFlag(b) | u == b
  {
    !FLAG_MASK & b
  }

  /**
   * The last byte the writer stores: `Log_CurFlag | (last payload byte & ~LOG_FLAG_MASK)`.
   * Reading it back gives the flag and the payload's low seven bits.
   */
  function PackLast(payload: bv8, flag: bv8): (b: bv8)
    ensures IsFlag(flag) ==> ReadFlag(b) == flag
    ensures IsFlag(flag) ==> Unflag(b) == Unflag(payload)
  {
    flag | Unflag(payload)
  }

  /** The bytes of record r as they lie in memory. */
  function SlotBytes(mem: seq<bv8>, g: Geometry, r: nat): (s: seq<bv8>)
    requires ValidGeometry(g) && r < g.recs && RingEnd(g) <= |mem|
    ensures |s| == g.recSize
  {
    mem[Address(g, r) .. Address(g, r) + g.recSize]
  }

  /** A record as a reader sees it: the payload with bit 7 of its last byte cleared. */
  function Masked(s: seq<bv8>): (m: seq<bv8>)
    requires |s| >= 1
    ensures |m| == |s| && m[..|s| - 1] == s[..|s| - 1]
    ensures m[|s| - 1] < 0x80 && m[|s| - 1] == Unflag(s[|s| - 1])
  {
    s[..|s| - 1] + [Unflag(s[|s| - 1])]
  }

  /** The bytes the writer leaves in a record for payload s and flag f. */
  function Encode(s: seq<bv8>, flag: bv8): (e: seq<bv8>)
    requires |s| >= 1
    ensures |e| == |s| && e[..|s| - 1] == s[..|s| - 1]
    ensures e[|s| - 1] == PackLast(s[|s| - 1], flag)
  {
    s[..|s| - 1] + [PackLast(s[|s| - 1], flag)]
  }

  /**
   * What Log_ReadRec copies out of record r: the first REC_SIZE-1 bytes as
   * they are and the last byte without its flag.
   */
  function Decode(mem: seq<bv8>, g: Geometry, r: nat): (d: seq<bv8>)
    requires ValidGeometry(g) && r < g.recs && RingEnd(g) <= |mem|
    ensures |d| == g.recSize
  {
    Masked(SlotBytes(mem, g, r))
  }

  /** The flag of record r: the service bit of its last byte. */
  function FlagAt(mem: seq<bv8>, g: Geometry, r: nat): (f: bv8)
    requires ValidGeometry(g) && r < g.recs && RingEnd(g) <= |mem|
    ensures IsFlag(f)
  {
    ReadFlag(mem[Address(g, r) + g.recSize - 1])
  }

  /** Memory with record r replaced by the bytes e. */
  function WriteSlot(mem: seq<bv8>, g: Geometry, r: nat, e: seq<bv8>): (m: seq<bv8>)
    requires ValidGeometry(g) && r < g.recs && RingEnd(g) <= |mem| && |e| == g.recSize
    ensures |m| == |mem|
    ensures SlotBytes(m, g, r) == e
    ensures forall k :: Address(g, r) <= k < Address(g, r) + g.recSize ==> m[k] == e[k - Address(g, r)]
    ensures forall k :: 0 <= k < |mem| && !(Address(g, r) <= k < Address(g, r) + g.recSize) ==> m[k] == mem[k]
  {
    mem[..Address(g, r)] + e + mem[Address(g, r) + g.recSize..]
  }

  /**
   * Writing the encoding of payload s with flag f into record r and reading
   * it back gives s with bit 7 of its last byte cleared, and the record's
   * flag is f; every other record keeps its bytes.
   */
  lemma ReadBack(mem: seq<bv8>, g: Geometry, r: nat, s: seq<bv8>, flag: bv8)
    requires ValidGeometry(g) && r < g.recs && RingEnd(g) <= |mem|
    requires |s| == g.recSize && IsFlag(flag)
    ensures Decode(WriteSlot(mem, g, r, Encode(s, flag)), g, r) == Masked(s)
    ensures FlagAt(WriteSlot(mem, g, r, Encode(s, flag)), g, r) == flag
    ensures forall j :: 0 <= j < g.recs && j != r ==>
              SlotBytes(WriteSlot(mem, g, r, Encode(s, flag)), g, j) == SlotBytes(mem, g, j)
  {
    var m := WriteSlot(mem, g, r, Encode(s, flag));
    var e := Encode(s, flag);
    var a := Address(g, r);
    assert m[a + g.recSize - 1] == e[g.recSize - 1];
    forall j | 0 <= j < g.recs && j != r
      ensures SlotBytes(m, g, j) == SlotBytes(mem, g, j)
    {
      SlotsDisjoint(g, j, r);
    }
  }
}
