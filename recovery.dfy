/**
 * Log_InitLog: rebuilding the write cursor, the read cursor and the current
 * flag from the flag bits already in EEPROM.
 *
 * The loop of Log_InitLog starts at an address `first`, reads the service bit
 * of the byte there as the reference flag, then for cr = 1 .. recs-1 reads the
 * service bit of the byte at `first + rec_size*cr` and stops at the first one
 * that differs. As written, `first` is `start_addr + rec_size`, which is byte 0
 * of record 1, so the probes land on byte 0 of records 1 .. recs (the last one
 * past the ring) instead of on the flag bytes. With `first` one byte lower
 * every probe lands on the flag byte of records 0 .. recs-1, and the scan
 * finds exactly where the writer stopped. Both are modelled: ScanAsWritten and
 * Scan.
 */
module Recovery {
  import opened Ring
  import opened SlotCodec

  /** The statics Log_InitLog sets: Log_CurRec, Log_CurFlag and Log_CurReadRec. */
  datatype Recovered = Recovered(rec: nat, flag: bv8, readRec: nat)

  /** Every probe of a scan that starts at `first` lies in memory and in the 16-bit address space. */
  predicate ProbesFit(mem: seq<bv8>, g: Geometry, first: nat)
  {
    ValidGeometry(g) && first + Span(g.recs - 1, g.recSize) < |mem| && first + Span(g.recs - 1, g.recSize) < 0x1_0000
  }

  /** The service bit the scan reads on its step cr: `Log_ReadFlag(first + rec_size*cr)`. */
  function Probe(mem: seq<bv8>, g: Geometry, first: nat, cr: nat): (f: bv8)
    requires ProbesFit(mem, g, first) && cr < g.recs
    ensures IsFlag(f)
  {
    SpanMono(cr, g.recs - 1, g.recSize);
    ReadFlag(mem[first + Span(cr, g.recSize)])
  }

  /**
   * The first step at or after cr whose probe differs from f, or recs when
   * there is none.
   */
  function FirstDiff(mem: seq<bv8>, g: Geometry, first: nat, f: bv8, cr: nat): (k: nat)
    requires ProbesFit(mem, g, first) && 1 <= cr <= g.recs
    ensures cr <= k <= g.recs
    ensures forall j :: cr <= j < k ==> Probe(mem, g, first, j) == f
    ensures k < g.recs ==> Probe(mem, g, first, k) != f
    decreases g.recs - cr
  {
    if cr == g.recs then cr
    else if f ^ Probe(mem, g, first, cr) != 0 then cr
    else FirstDiff(mem, g, first, f, cr + 1)
  }

  /**
   * The result of the scan that starts at `first`: at the first differing
   * probe cr the write cursor is cr and the read cursor the record after it,
   * with the reference flag; with no difference the write cursor is 0, the
   * read cursor 1 and the flag is the reference flag inverted.
   */
  function ScanFrom(mem: seq<bv8>, g: Geometry, first: nat): (r: Recovered)
    requires ProbesFit(mem, g, first)
    ensures r.rec < g.recs && r.readRec < g.recs && r.rec != r.readRec && IsFlag(r.flag)
    ensures r.readRec == StepUp(r.rec, g.recs)
  {
    var f := Probe(mem, g, first, 0);
    var k := FirstDiff(mem, g, first, f, 1);
    if k < g.recs then Recovered(k, f, StepUp(k, g.recs))
    else Recovered(0, f ^ FLAG_MASK, 1)
  }

  /**
   * The scan follows the first mismatch: if probe k is the first of 1 .. recs-1
   * to differ from probe 0, the write cursor is k; if none differs, the write
   * cursor is 0 and the flag is probe 0 inverted.
   */
  lemma ScanFollowsFirstMismatch(mem: seq<bv8>, g: Geometry, first: nat, k: nat)
    requires ProbesFit(mem, g, first) && 1 <= k <= g.recs
    requires forall j :: 1 <= j < k ==> Probe(mem, g, first, j) == Probe(mem, g, first, 0)
    requires k < g.recs ==> Probe(mem, g, first, k) != Probe(mem, g, first, 0)
    ensures k < g.recs ==> ScanFrom(mem, g, first) == Recovered(k, Probe(mem, g, first, 0), StepUp(k, g.recs))
    ensures k == g.recs ==> ScanFrom(mem, g, first) == Recovered(0, Probe(mem, g, first, 0) ^ FLAG_MASK, 1)
  {
    var f := Probe(mem, g, first, 0);
    var d := FirstDiff(mem, g, first, f, 1);
    // Naming both probes lets the two characterisations meet: neither d < k nor k < d.
    var pd := if d < g.recs then Probe(mem, g, first, d) else f;
    var pk := if k < g.recs then Probe(mem, g, first, k) else f;
  }

  /** Where the scan starts as written: `start_addr + rec_size`, byte 0 of record 1. */
  function AsWrittenFirst(g: Geometry): nat
  {
    g.start + g.recSize
  }

  /** Where the scan starts when it reads flag bytes: the last byte of record 0. */
  function FlagFirst(g: Geometry): nat
    requires ValidGeometry(g)
  {
    g.start + g.recSize - 1
  }

  /** Log_InitLog as written. It reads one byte past the ring, which must therefore exist. */
  function ScanAsWritten(mem: seq<bv8>, g: Geometry): (r: Recovered)
    requires ValidGeometry(g) && RingEnd(g) < |mem| && RingEnd(g) < 0x1_0000
    ensures r.rec < g.recs && r.readRec == StepUp(r.rec, g.recs) && IsFlag(r.flag)
  {
    assert Span(g.recs - 1, g.recSize) + g.recSize == Span(g.recs, g.recSize);
    ScanFrom(mem, g, AsWrittenFirst(g))
  }

  /** Log_InitLog with its probes on the flag bytes of records 0 .. recs-1. */
  function Scan(mem: seq<bv8>, g: Geometry): (r: Recovered)
    requires ValidGeometry(g) && RingEnd(g) <= |mem|
    ensures r.rec < g.recs && r.readRec == StepUp(r.rec, g.recs) && IsFlag(r.flag)
  {
    assert Span(g.recs - 1, g.recSize) + g.recSize == Span(g.recs, g.recSize);
    ScanFrom(mem, g, FlagFirst(g))
  }

  /** With the corrected start every probe reads the flag of record cr. */
  lemma ProbeIsFlag(mem: seq<bv8>, g: Geometry, cr: nat)
    requires ValidGeometry(g) && RingEnd(g) <= |mem| && cr < g.recs
    ensures ProbesFit(mem, g, FlagFirst(g))
    ensures Probe(mem, g, FlagFirst(g), cr) == FlagAt(mem, g, cr)
  {
    assert Span(g.recs - 1, g.recSize) + g.recSize == Span(g.recs, g.recSize);
  }

  /**
   * The flags as the writer leaves them with write cursor rec and current
   * flag `flag`: records before rec carry `flag`, rec and the records after it
   * still carry the previous generation's flag.
   */
  ghost predicate Layout(mem: seq<bv8>, g: Geometry, rec: nat, flag: bv8)
    requires ValidGeometry(g) && RingEnd(g) <= |mem|
  {
    && rec < g.recs && IsFlag(flag)
    && forall j :: 0 <= j < g.recs ==> FlagAt(mem, g, j) == (if j < rec then flag else flag ^ FLAG_MASK)
  }

  /**
   * Recovery restores the writer's state: on memory whose flags follow the
   * layout of write cursor rec and flag `flag`, the scan yields write cursor
   * rec, that flag, and the record after rec as the read cursor.
   */
  lemma {:induction false} ScanRecoversLayout(mem: seq<bv8>, g: Geometry, rec: nat, flag: bv8)
    requires ValidGeometry(g) && RingEnd(g) <= |mem| && Layout(mem, g, rec, flag)
    ensures Scan(mem, g) == Recovered(rec, flag, StepUp(rec, g.recs))
  {
    var first := FlagFirst(g);
    ProbeIsFlag(mem, g, 0);
    forall j | 0 <= j < g.recs
      ensures Probe(mem, g, first, j) == FlagAt(mem, g, j)
    {
      ProbeIsFlag(mem, g, j);
    }
    if rec == 0 {
      ScanFollowsFirstMismatch(mem, g, first, g.recs);
    } else {
      ScanFollowsFirstMismatch(mem, g, first, rec);
    }
  }

  /** Scans over memories whose probes agree find the same first mismatch. */
  lemma {:induction false} FirstDiffSeesOnlyProbes(mem: seq<bv8>, mem': seq<bv8>, g: Geometry, first: nat, f: bv8, cr: nat)
    requires ProbesFit(mem, g, first) && ProbesFit(mem', g, first) && 1 <= cr <= g.recs
    requires forall j :: cr <= j < g.recs ==> Probe(mem, g, first, j) == Probe(mem', g, first, j)
    ensures FirstDiff(mem, g, first, f, cr) == FirstDiff(mem', g, first, f, cr)
    decreases g.recs - cr
  {
    if cr < g.recs {
      FirstDiffSeesOnlyProbes(mem, mem', g, first, f, cr + 1);
    }
  }

  /** The corrected scan reads nothing but the flags: memories that agree on them recover alike. */
  lemma ScanSeesOnlyFlags(mem: seq<bv8>, mem': seq<bv8>, g: Geometry)
    requires ValidGeometry(g) && RingEnd(g) <= |mem| && RingEnd(g) <= |mem'|
    requires forall j :: 0 <= j < g.recs ==> FlagAt(mem, g, j) == FlagAt(mem', g, j)
    ensures Scan(mem, g) == Scan(mem', g)
  {
    var first := FlagFirst(g);
    forall j | 0 <= j < g.recs
      ensures Probe(mem, g, first, j) == Probe(mem', g, first, j)
    {
      ProbeIsFlag(mem, g, j);
      ProbeIsFlag(mem', g, j);
    }
    FirstDiffSeesOnlyProbes(mem, mem', g, first, Probe(mem, g, first, 0), 1);
  }

  /** Layout depends on the flags only. */
  lemma LayoutSeesOnlyFlags(mem: seq<bv8>, mem': seq<bv8>, g: Geometry, rec: nat, flag: bv8)
    requires ValidGeometry(g) && RingEnd(g) <= |mem| && RingEnd(g) <= |mem'|
    requires forall j :: 0 <= j < g.recs ==> FlagAt(mem, g, j) == FlagAt(mem', g, j)
    ensures Layout(mem, g, rec, flag) == Layout(mem', g, rec, flag)
  {
  }

  /** Memory whose bytes are all zero follows the layout of write cursor 0 with flag 0x80: every flag is 0. */
  lemma ZeroMemoryLayout(mem: seq<bv8>, g: Geometry)
    requires ValidGeometry(g) && RingEnd(g) <= |mem| && forall k :: 0 <= k < |mem| ==> mem[k] == 0
    ensures Layout(mem, g, 0, FLAG_MASK)
  {
    forall j | 0 <= j < g.recs
      ensures FlagAt(mem, g, j) == FLAG_MASK ^ FLAG_MASK
    {
      assert mem[Address(g, j) + g.recSize - 1] == 0;
    }
  }

  /** Three records of two bytes at address 0. */
  function SmallRing(): (g: Geometry)
    ensures ValidGeometry(g) && RingEnd(g) == 6
  {
    assert Span(3, 2) == Span(2, 2) + 2 == Span(1, 2) + 4 == 6;
    Geometry(3, 2, 0)
  }

  /** With bytes 2, 4 and 6 clear, the scan as written on SmallRing finds no mismatch. */
  lemma AsWrittenOnZeroByteProbes(mem: seq<bv8>, g: Geometry)
    requires g == SmallRing() && |mem| == 7 && mem[2] == 0 && mem[4] == 0 && mem[6] == 0
    ensures RingEnd(g) < |mem| && RingEnd(g) < 0x1_0000
    ensures ScanAsWritten(mem, g) == Recovered(0, FLAG_MASK, 1)
  {
    var first := AsWrittenFirst(g);
    assert Span(1, 2) == 2 && Span(2, 2) == 4;
    assert Probe(mem, g, first, 0) == ReadFlag(mem[2]);
    assert Probe(mem, g, first, 1) == ReadFlag(mem[4]);
    assert Probe(mem, g, first, 2) == ReadFlag(mem[6]);
    ScanFollowsFirstMismatch(mem, g, first, 3);
  }
}
