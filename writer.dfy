/**
 * Log_NoblockingWrite as a state machine: one call is one step, issuing at
 * most one EEPROM byte write (WriteEE) and reporting a flag. The EEPROM
 * itself is left to the caller: a step returns the write it issues, and
 * ApplyAll performs a list of such writes on a memory image.
 */
module Writer {
  import opened Opt
  import opened Ring
  import opened SlotCodec
  import Recovery

  /** One call WriteEE(addr, value). */
  datatype Store = Store(addr: nat, value: bv8)

  /**
   * What the writer reads and changes: Log_CurRec, Log_CurFlag,
   * Log_CurReadRec, its function statics `a` (0 when idle) and `i`, and the
   * staging buffer Log_RecBuf.
   */
  datatype LogState = LogState(rec: nat, flag: bv8, readRec: nat, addr: nat, idx: nat, buf: seq<bv8>)

  /** One call of Log_NoblockingWrite: the state after it, the byte write it issued, and its result. */
  datatype Outcome = Outcome(st: LogState, issued: Option<Store>, ret: bool)

  /**
   * What holds of the logger's state from its zero-initialised start on:
   * cursors inside the ring, a flag that is 0x00 or 0x80, a staging buffer
   * of REC_SIZE bytes, and, while a record is in flight, a byte index in
   * 1 .. REC_SIZE and an address whose remaining bytes lie inside the ring:
   * at least `start_addr + i`, and with room for REC_SIZE - i bytes before
   * the end of the ring.
   */
  ghost predicate StateOk(g: Geometry, st: LogState)
  {
    && ValidGeometry(g)
    && st.rec < g.recs && st.readRec < g.recs && IsFlag(st.flag)
    && |st.buf| == g.recSize
    && (st.addr != 0 ==> 1 <= st.idx <= g.recSize)
    && (st.addr != 0 && st.idx < g.recSize ==> g.start + st.idx <= st.addr && st.addr + (g.recSize - st.idx) <= RingEnd(g))
  }

  /** A source record, when given, has REC_SIZE bytes. */
  predicate SrcOk(g: Geometry, src: Option<seq<bv8>>)
  {
    src.Some? ==> |src.value| == g.recSize
  }

  /**
   * What the call that writes the last byte does to the cursors: the write
   * cursor moves to the next record, the flag flips exactly when that record
   * is 0, and the read cursor, if it now sits on the write cursor, moves one
   * record further. The byte index becomes REC_SIZE: the record is done.
   */
  function Commit(g: Geometry, st: LogState): (c: LogState)
    requires ValidGeometry(g) && st.rec < g.recs && st.readRec < g.recs
    ensures c.rec == if st.rec == g.recs - 1 then 0 else st.rec + 1
    ensures c.flag == if st.rec == g.recs - 1 then st.flag ^ FLAG_MASK else st.flag
    ensures c.readRec == if st.readRec != c.rec then st.readRec
                         else if c.rec == g.recs - 1 then 0 else c.rec + 1
    ensures c.readRec < g.recs && c.readRec != c.rec
    ensures c == st.(rec := c.rec, flag := c.flag, readRec := c.readRec, idx := g.recSize)
  {
    var r := StepUp(st.rec, g.recs);
    var flag := if MinusLast(st.rec, g.recs) == 0 then st.flag ^ FLAG_MASK else st.flag;
    var readRec := if st.readRec == r then WrapInc(st.readRec, g.recs) else st.readRec;
    st.(rec := r, flag := flag, readRec := readRec, idx := g.recSize)
  }

  /**
   * One call of Log_NoblockingWrite with `ready` the value of isEEfree() and
   * `src` the source record, None for a null pointer.
   */
  function WriteStep(g: Geometry, st: LogState, ready: bool, src: Option<seq<bv8>>): (o: Outcome)
    requires StateOk(g, st) && SrcOk(g, src)
    ensures StateOk(g, o.st)
    ensures o.issued.Some? ==> g.start <= o.issued.value.addr < RingEnd(g)
    ensures st.readRec != st.rec ==> o.st.readRec != o.st.rec
  {
    if !ready then Outcome(st, None, false)
    else if st.addr != 0 && st.idx != g.recSize then
      if st.idx == g.recSize - 1 then
        Outcome(Commit(g, st), Some(Store(st.addr, PackLast(st.buf[st.idx], st.flag))), false)
      else
        Outcome(st.(addr := st.addr + 1, idx := st.idx + 1), Some(Store(st.addr, st.buf[st.idx])), false)
    else
      // Idle, or the previous record is done (`a = 0; goto test`).
      match src
      case None => Outcome(st.(addr := 0), None, true)
      case Some(s) =>
        var base := Address(g, st.rec);
        Outcome(st.(addr := base + 1, idx := 1, buf := [1] + s[1..]), Some(Store(base, s[0])), true)
  }

  /** While isEEfree() is 0 a call does nothing and returns 0. */
  lemma BusyIsNoop(g: Geometry, st: LogState, src: Option<seq<bv8>>)
    requires StateOk(g, st) && SrcOk(g, src)
    ensures WriteStep(g, st, false, src) == Outcome(st, None, false)
  {
  }

  /** An idle writer polled with a null source returns 1, issues nothing and changes nothing. */
  lemma IdlePollIsNoop(g: Geometry, st: LogState)
    requires StateOk(g, st) && st.addr == 0
    ensures WriteStep(g, st, true, None) == Outcome(st, None, true)
  {
  }

  /** While bytes of a record remain, a ready call returns 0, writes one byte, and ignores its source. */
  lemma InFlightIgnoresSource(g: Geometry, st: LogState, src: Option<seq<bv8>>, src': Option<seq<bv8>>)
    requires StateOk(g, st) && SrcOk(g, src) && SrcOk(g, src')
    requires st.addr != 0 && st.idx < g.recSize
    ensures WriteStep(g, st, true, src) == WriteStep(g, st, true, src')
    ensures !WriteStep(g, st, true, src).ret && WriteStep(g, st, true, src).issued.Some?
  {
  }

  /** Once a record is done the next ready call clears `a` and then acts exactly as an idle call. */
  lemma DoneActsAsIdle(g: Geometry, st: LogState, src: Option<seq<bv8>>)
    requires StateOk(g, st) && SrcOk(g, src) && st.addr != 0 && st.idx == g.recSize
    ensures WriteStep(g, st, true, src) == WriteStep(g, st.(addr := 0), true, src)
  {
  }

  /**
   * Call k of a run: with source srcs[k] the writer goes from sts[k] to
   * sts[k + 1], issues issued[k] and returns rets[k].
   */
  ghost predicate StepAt(g: Geometry, srcs: seq<Option<seq<bv8>>>, sts: seq<LogState>, issued: seq<Option<Store>>, rets: seq<bool>, k: nat)
    requires k < |srcs| && |sts| == |srcs| + 1 && |issued| == |srcs| && |rets| == |srcs|
  {
    && StateOk(g, sts[k]) && SrcOk(g, srcs[k])
    && WriteStep(g, sts[k], true, srcs[k]) == Outcome(sts[k + 1], issued[k], rets[k])
  }

  /** |srcs| ready calls of Log_NoblockingWrite in a row, from a valid state. */
  ghost predicate Run(g: Geometry, srcs: seq<Option<seq<bv8>>>, sts: seq<LogState>, issued: seq<Option<Store>>, rets: seq<bool>)
  {
    && |sts| == |srcs| + 1 && |issued| == |srcs| && |rets| == |srcs|
    && StateOk(g, sts[0])
    && forall k: nat {:trigger StepAt(g, srcs, sts, issued, rets, k)} :: k < |srcs| ==> StepAt(g, srcs, sts, issued, rets, k)
  }

  /** From any valid state, any sources of REC_SIZE bytes can be fed to the writer: the run exists. */
  lemma {:induction false} RunExists(g: Geometry, st: LogState, srcs: seq<Option<seq<bv8>>>)
    requires StateOk(g, st) && forall k :: 0 <= k < |srcs| ==> SrcOk(g, srcs[k])
    ensures exists sts, issued, rets :: Run(g, srcs, sts, issued, rets) && sts[0] == st
    decreases |srcs|
  {
    if srcs == [] {
      assert Run(g, srcs, [st], [], []);
    } else {
      var o := WriteStep(g, st, true, srcs[0]);
      RunExists(g, o.st, srcs[1..]);
      var sts', issued', rets' :| Run(g, srcs[1..], sts', issued', rets') && sts'[0] == o.st;
      var sts, issued, rets := [st] + sts', [o.issued] + issued', [o.ret] + rets';
      forall k: nat | k < |srcs|
        ensures StepAt(g, srcs, sts, issued, rets, k)
      {
        if k > 0 {
          assert StepAt(g, srcs[1..], sts', issued', rets', k - 1);
          assert sts[k] == sts'[k - 1] && sts[k + 1] == sts'[k] && srcs[k] == srcs[1..][k - 1];
          assert issued[k] == issued'[k - 1] && rets[k] == rets'[k - 1];
        }
      }
      assert Run(g, srcs, sts, issued, rets);
    }
  }

  /** The state of a record in flight after its first t bytes are written. */
  function InFlight(g: Geometry, st: LogState, s: seq<bv8>, t: nat): LogState
    requires ValidGeometry(g) && st.rec < g.recs && |s| >= 1
  {
    st.(addr := Address(g, st.rec) + t, idx := t, buf := [1] + s[1..])
  }

  /**
   * The ready call that accepts a new record: it stages s with its first
   * byte replaced by 1, writes byte 0 and returns 1.
   */
  lemma StepFirst(g: Geometry, st: LogState, s: seq<bv8>)
    requires StateOk(g, st) && (st.addr == 0 || st.idx == g.recSize) && |s| == g.recSize
    ensures StateOk(g, InFlight(g, st, s, 1))
    ensures WriteStep(g, st, true, Some(s))
              == Outcome(InFlight(g, st, s, 1), Some(Store(Address(g, st.rec), Encode(s, st.flag)[0])), true)
  {
  }

  /** A ready call before the last byte writes byte t of Encode(s, flag) and moves on to byte t+1. */
  lemma StepMid(g: Geometry, st: LogState, s: seq<bv8>, t: nat, src: Option<seq<bv8>>)
    requires StateOk(g, st) && SrcOk(g, src) && |s| == g.recSize
    requires 1 <= t < g.recSize - 1 && StateOk(g, InFlight(g, st, s, t))
    ensures StateOk(g, InFlight(g, st, s, t + 1))
    ensures WriteStep(g, InFlight(g, st, s, t), true, src)
              == Outcome(InFlight(g, st, s, t + 1), Some(Store(Address(g, st.rec) + t, Encode(s, st.flag)[t])), false)
  {
    assert ([1] + s[1..])[t] == s[t];
  }

  /**
   * The ready call on the last byte writes it with the flag in its service
   * bit and commits the cursors.
   */
  lemma StepLast(g: Geometry, st: LogState, s: seq<bv8>, src: Option<seq<bv8>>)
    requires StateOk(g, st) && SrcOk(g, src) && |s| == g.recSize
    requires StateOk(g, InFlight(g, st, s, g.recSize - 1))
    ensures WriteStep(g, InFlight(g, st, s, g.recSize - 1), true, src)
              == Outcome(Commit(g, InFlight(g, st, s, g.recSize - 1)),
                         Some(Store(Address(g, st.rec) + g.recSize - 1, Encode(s, st.flag)[g.recSize - 1])), false)
  {
    assert ([1] + s[1..])[g.recSize - 1] == s[g.recSize - 1];
  }

  /**
   * The first n < REC_SIZE calls of a record, from a writer that is idle or
   * done: the first accepts s and returns 1, the others return 0, call k
   * writes byte k of Encode(s, flag) to the record's address + k, and the
   * record is then in flight with n bytes written.
   */
  lemma {:induction false} RunPrefix(g: Geometry, s: seq<bv8>, srcs: seq<Option<seq<bv8>>>, sts: seq<LogState>,
                                     issued: seq<Option<Store>>, rets: seq<bool>, n: nat)
    requires Run(g, srcs, sts, issued, rets) && (sts[0].addr == 0 || sts[0].idx == g.recSize)
    requires |s| == g.recSize && 1 <= n <= |srcs| && n < g.recSize && srcs[0] == Some(s)
    ensures sts[n] == InFlight(g, sts[0], s, n)
    ensures forall k :: 0 <= k < n ==> issued[k] == Some(Store(Address(g, sts[0].rec) + k, Encode(s, sts[0].flag)[k]))
    ensures forall k :: 0 <= k < n ==> rets[k] == (k == 0)
  {
    var st := sts[0];
    if n == 1 {
      assert StepAt(g, srcs, sts, issued, rets, 0);
      StepFirst(g, st, s);
    } else {
      RunPrefix(g, s, srcs, sts, issued, rets, n - 1);
      assert StepAt(g, srcs, sts, issued, rets, n - 1);
      StepMid(g, st, s, n - 1, srcs[n - 1]);
    }
  }

  /**
   * A whole record: REC_SIZE calls from a writer that is idle or done, the
   * first with source s, write Encode(s, flag) byte by byte into the slot of
   * the write cursor, return 1 and then 0s, and commit the cursors.
   */
  lemma RunWhole(g: Geometry, s: seq<bv8>, srcs: seq<Option<seq<bv8>>>, sts: seq<LogState>,
                 issued: seq<Option<Store>>, rets: seq<bool>)
    requires Run(g, srcs, sts, issued, rets) && (sts[0].addr == 0 || sts[0].idx == g.recSize)
    requires |s| == g.recSize && |srcs| >= g.recSize && srcs[0] == Some(s)
    ensures sts[g.recSize] == Commit(g, InFlight(g, sts[0], s, g.recSize - 1))
    ensures forall k :: 0 <= k < g.recSize ==>
              issued[k] == Some(Store(Address(g, sts[0].rec) + k, Encode(s, sts[0].flag)[k]))
    ensures forall k :: 0 <= k < g.recSize ==> rets[k] == (k == 0)
  {
    RunPrefix(g, s, srcs, sts, issued, rets, g.recSize - 1);
    assert StepAt(g, srcs, sts, issued, rets, g.recSize - 1);
    StepLast(g, sts[0], s, srcs[g.recSize - 1]);
  }

  /**
   * WriteEE as an immediate store into a memory image. Every write the
   * writer issues lies inside the ring (WriteStep's contract), so the case
   * of an address outside the image, which leaves it unchanged, never arises.
   */
  function Apply(mem: seq<bv8>, s: Store): (m: seq<bv8>)
    ensures |m| == |mem|
  {
    if s.addr < |mem| then mem[s.addr := s.value] else mem
  }

  /** A store, if one was issued. */
  function ApplyIssued(mem: seq<bv8>, s: Option<Store>): (m: seq<bv8>)
    ensures |m| == |mem|
  {
    if s.Some? then Apply(mem, s.value) else mem
  }

  /** The byte writes of a run performed in order: all but the last, then the last. */
  function ApplyAll(mem: seq<bv8>, issued: seq<Option<Store>>): (m: seq<bv8>)
    ensures |m| == |mem|
    decreases |issued|
  {
    if issued == [] then mem
    else ApplyIssued(ApplyAll(mem, issued[..|issued| - 1]), issued[|issued| - 1])
  }

  /** Writes of e[0 .. n] to base .. base + n, performed in order, put e there and leave every other byte. */
  lemma {:induction false} ApplyRecordBytes(mem: seq<bv8>, base: nat, e: seq<bv8>, issued: seq<Option<Store>>, n: nat)
    requires n <= |issued| && n <= |e| && base + |e| <= |mem|
    requires forall k :: 0 <= k < n ==> issued[k] == Some(Store(base + k, e[k]))
    ensures forall j :: 0 <= j < |mem| ==>
              ApplyAll(mem, issued[..n])[j] == (if base <= j < base + n then e[j - base] else mem[j])
  {
    if n > 0 {
      assert issued[..n][..n - 1] == issued[..n - 1];
      ApplyRecordBytes(mem, base, e, issued, n - 1);
    }
  }

  /** A memory image that agrees byte by byte with mem, except for e at base, is mem with e spliced in. */
  lemma Splice(a: seq<bv8>, mem: seq<bv8>, base: nat, e: seq<bv8>, n: nat)
    requires |a| == |mem| && |e| == n && base + n <= |mem|
    requires forall j :: 0 <= j < |mem| ==> a[j] == (if base <= j < base + n then e[j - base] else mem[j])
    ensures a == mem[..base] + e + mem[base + n..]
  {
    var w := mem[..base] + e + mem[base + n..];
    forall j | 0 <= j < |mem|
      ensures a[j] == w[j]
    {
      if j < base {
        assert w[j] == mem[j];
      } else if j < base + n {
        assert w[j] == e[j - base];
      } else {
        assert w[j] == mem[j];
      }
    }
  }

  /** Performing the writes of a whole record is writing the record's slot. */
  lemma ApplyWholeSlot(mem: seq<bv8>, g: Geometry, r: nat, e: seq<bv8>, issued: seq<Option<Store>>)
    requires ValidGeometry(g) && r < g.recs && RingEnd(g) <= |mem| && |e| == g.recSize
    requires g.recSize <= |issued| && forall k :: 0 <= k < g.recSize ==> issued[k] == Some(Store(Address(g, r) + k, e[k]))
    ensures ApplyAll(mem, issued[..g.recSize]) == WriteSlot(mem, g, r, e)
  {
    var base := Address(g, r);
    ApplyRecordBytes(mem, base, e, issued, g.recSize);
    Splice(ApplyAll(mem, issued[..g.recSize]), mem, base, e, g.recSize);
  }

  /**
   * Performing exactly the writes of record r's encoding of s with flag f
   * writes r's slot; reading it back gives s with the flag bit cleared and
   * flag f.
   */
  lemma WholeSlotReadsBack(mem: seq<bv8>, g: Geometry, r: nat, s: seq<bv8>, flag: bv8, issued: seq<Option<Store>>)
    requires ValidGeometry(g) && r < g.recs && RingEnd(g) <= |mem| && |s| == g.recSize && IsFlag(flag)
    requires |issued| == g.recSize
    requires forall k :: 0 <= k < g.recSize ==> issued[k] == Some(Store(Address(g, r) + k, Encode(s, flag)[k]))
    ensures ApplyAll(mem, issued) == WriteSlot(mem, g, r, Encode(s, flag))
    ensures Decode(ApplyAll(mem, issued), g, r) == Masked(s)
    ensures FlagAt(ApplyAll(mem, issued), g, r) == flag
  {
    assert issued[..g.recSize] == issued;
    ApplyWholeSlot(mem, g, r, Encode(s, flag), issued);
    ReadBack(mem, g, r, s, flag);
  }

  /**
   * Write round trip: REC_SIZE ready calls from a writer that is idle or
   * done, the first with source s, return 1 and then 0s; their writes leave
   * record `rec` holding Encode(s, flag) and every other byte as it was, so
   * that reading the record back gives s with the flag bit cleared and its
   * flag is the current flag. The writer ends committed: `a` on the last
   * byte it wrote, the staging buffer holding s with byte 0 set to 1, and
   * the cursors and the flag as Commit moves them.
   */
  lemma WriteRoundTrip(g: Geometry, s: seq<bv8>, srcs: seq<Option<seq<bv8>>>, sts: seq<LogState>,
                       issued: seq<Option<Store>>, rets: seq<bool>, mem: seq<bv8>)
    requires Run(g, srcs, sts, issued, rets) && (sts[0].addr == 0 || sts[0].idx == g.recSize)
    requires |s| == g.recSize && |srcs| == g.recSize && srcs[0] == Some(s) && RingEnd(g) <= |mem|
    ensures rets[0] && forall k :: 1 <= k < g.recSize ==> !rets[k]
    ensures ApplyAll(mem, issued) == WriteSlot(mem, g, sts[0].rec, Encode(s, sts[0].flag))
    ensures Decode(ApplyAll(mem, issued), g, sts[0].rec) == Masked(s)
    ensures FlagAt(ApplyAll(mem, issued), g, sts[0].rec) == sts[0].flag
    ensures sts[g.recSize]
            == Commit(g, sts[0]).(addr := Address(g, sts[0].rec) + g.recSize - 1, buf := [1] + s[1..])
  {
    RunWhole(g, s, srcs, sts, issued, rets);
    WholeSlotReadsBack(mem, g, sts[0].rec, s, sts[0].flag, issued);
  }

  /** Writing one record's slot leaves the flag of every other record as it was. */
  lemma OtherFlagsKept(mem: seq<bv8>, g: Geometry, r: nat, e: seq<bv8>)
    requires ValidGeometry(g) && r < g.recs && RingEnd(g) <= |mem| && |e| == g.recSize
    ensures forall j :: 0 <= j < g.recs && j != r ==> FlagAt(WriteSlot(mem, g, r, e), g, j) == FlagAt(mem, g, j)
  {
    forall j | 0 <= j < g.recs && j != r
      ensures FlagAt(WriteSlot(mem, g, r, e), g, j) == FlagAt(mem, g, j)
    {
      SlotsDisjoint(g, j, r);
    }
  }

  /** Flipping the flag twice gives it back. */
  lemma FlipTwice(f: bv8)
    ensures f ^ FLAG_MASK ^ FLAG_MASK == f
  {
  }

  /**
   * Setting the flag of record rec to the current flag, and no other flag,
   * moves the layout on by one record; past the last record the layout
   * starts again at record 0 with the inverted flag.
   */
  lemma LayoutAdvance(mem: seq<bv8>, m: seq<bv8>, g: Geometry, rec: nat, flag: bv8)
    requires ValidGeometry(g) && RingEnd(g) <= |mem| && |m| == |mem|
    requires Recovery.Layout(mem, g, rec, flag) && FlagAt(m, g, rec) == flag
    requires forall j :: 0 <= j < g.recs && j != rec ==> FlagAt(m, g, j) == FlagAt(mem, g, j)
    ensures rec + 1 < g.recs ==> Recovery.Layout(m, g, rec + 1, flag)
    ensures rec + 1 == g.recs ==> Recovery.Layout(m, g, 0, flag ^ FLAG_MASK)
  {
    if rec + 1 == g.recs {
      FlipTwice(flag);
      forall j | 0 <= j < g.recs ensures FlagAt(m, g, j) == flag ^ FLAG_MASK ^ FLAG_MASK {
      }
    }
  }

  /**
   * A completed record keeps memory recoverable: if the flags followed the
   * writer's cursor before, they follow the advanced cursor after.
   */
  lemma WriteKeepsLayout(mem: seq<bv8>, g: Geometry, st: LogState, s: seq<bv8>)
    requires StateOk(g, st) && |s| == g.recSize && RingEnd(g) <= |mem|
    requires Recovery.Layout(mem, g, st.rec, st.flag)
    ensures Recovery.Layout(WriteSlot(mem, g, st.rec, Encode(s, st.flag)), g, Commit(g, st).rec, Commit(g, st).flag)
  {
    var e := Encode(s, st.flag);
    var m := WriteSlot(mem, g, st.rec, e);
    ReadBack(mem, g, st.rec, s, st.flag);
    OtherFlagsKept(mem, g, st.rec, e);
    LayoutAdvance(mem, m, g, st.rec, st.flag);
  }

  /** After a completed record, recovery (Log_InitLog) finds the cursor and flag the writer moved on to. */
  lemma RecoverAfterWrite(g: Geometry, s: seq<bv8>, srcs: seq<Option<seq<bv8>>>, sts: seq<LogState>,
                          issued: seq<Option<Store>>, rets: seq<bool>, mem: seq<bv8>)
    requires Run(g, srcs, sts, issued, rets) && (sts[0].addr == 0 || sts[0].idx == g.recSize)
    requires |s| == g.recSize && |srcs| == g.recSize && srcs[0] == Some(s) && RingEnd(g) <= |mem|
    requires Recovery.Layout(mem, g, sts[0].rec, sts[0].flag)
    ensures Recovery.Scan(ApplyAll(mem, issued), g)
            == Recovery.Recovered(Commit(g, sts[0]).rec, Commit(g, sts[0]).flag, StepUp(Commit(g, sts[0]).rec, g.recs))
  {
    var st := sts[0];
    var m := WriteSlot(mem, g, st.rec, Encode(s, st.flag));
    var c := Commit(g, st);
    assert ApplyAll(mem, issued) == m && sts[g.recSize].rec == c.rec && sts[g.recSize].flag == c.flag by {
      WriteRoundTrip(g, s, srcs, sts, issued, rets, mem);
    }
    assert Recovery.Layout(m, g, c.rec, c.flag) by {
      WriteKeepsLayout(mem, g, st, s);
    }
    Recovery.ScanRecoversLayout(m, g, c.rec, c.flag);
  }

  /** The first n < REC_SIZE byte writes of a record leave every flag byte as it was. */
  lemma PartialWriteKeepsFlags(mem: seq<bv8>, g: Geometry, r: nat, e: seq<bv8>, issued: seq<Option<Store>>, n: nat)
    requires ValidGeometry(g) && r < g.recs && RingEnd(g) <= |mem| && |e| == g.recSize && n < g.recSize
    requires n <= |issued| && forall k :: 0 <= k < n ==> issued[k] == Some(Store(Address(g, r) + k, e[k]))
    ensures forall j :: 0 <= j < g.recs ==> FlagAt(ApplyAll(mem, issued[..n]), g, j) == FlagAt(mem, g, j)
  {
    var base := Address(g, r);
    ApplyRecordBytes(mem, base, e, issued, n);
    var m := ApplyAll(mem, issued[..n]);
    forall j | 0 <= j < g.recs
      ensures FlagAt(m, g, j) == FlagAt(mem, g, j)
    {
      if j != r {
        SlotsDisjoint(g, j, r);
      }
      var a := Address(g, j) + g.recSize - 1;
      assert m[a] == mem[a];
    }
  }

  /**
   * The first n < REC_SIZE byte writes of record `rec` keep the flag layout of
   * write cursor rec, so recovery still finds rec, its flag and the record
   * after it.
   */
  lemma PartialWriteRecovers(mem: seq<bv8>, g: Geometry, rec: nat, flag: bv8, e: seq<bv8>, issued: seq<Option<Store>>, n: nat)
    requires ValidGeometry(g) && RingEnd(g) <= |mem| && |e| == g.recSize && n < g.recSize
    requires Recovery.Layout(mem, g, rec, flag)
    requires n <= |issued| && forall k :: 0 <= k < n ==> issued[k] == Some(Store(Address(g, rec) + k, e[k]))
    ensures Recovery.Scan(ApplyAll(mem, issued[..n]), g) == Recovery.Recovered(rec, flag, StepUp(rec, g.recs))
  {
    var m := ApplyAll(mem, issued[..n]);
    assert Recovery.Layout(m, g, rec, flag) by {
      PartialWriteKeepsFlags(mem, g, rec, e, issued, n);
      Recovery.LayoutSeesOnlyFlags(mem, m, g, rec, flag);
    }
    Recovery.ScanRecoversLayout(m, g, rec, flag);
  }

  /**
   * An interrupted record: when power is lost after the first n calls of a
   * record, 1 <= n < REC_SIZE, its flag byte is untouched, so recovery finds
   * the writer's cursor and flag as they were before the record.
   */
  lemma InterruptedWriteRecovers(g: Geometry, s: seq<bv8>, srcs: seq<Option<seq<bv8>>>, sts: seq<LogState>,
                                 issued: seq<Option<Store>>, rets: seq<bool>, mem: seq<bv8>, n: nat)
    requires Run(g, srcs, sts, issued, rets) && (sts[0].addr == 0 || sts[0].idx == g.recSize)
    requires |s| == g.recSize && 1 <= n <= |srcs| && n < g.recSize && srcs[0] == Some(s) && RingEnd(g) <= |mem|
    requires Recovery.Layout(mem, g, sts[0].rec, sts[0].flag)
    ensures Recovery.Scan(ApplyAll(mem, issued[..n]), g)
            == Recovery.Recovered(sts[0].rec, sts[0].flag, StepUp(sts[0].rec, g.recs))
  {
    RunPrefix(g, s, srcs, sts, issued, rets, n);
    PartialWriteRecovers(mem, g, sts[0].rec, sts[0].flag, Encode(s, sts[0].flag), issued, n);
  }

  /** The state the scan as written leaves on all-zero memory over SmallRing in a freshly started program. */
  function AsWrittenStart(): (st: LogState)
    ensures StateOk(Recovery.SmallRing(), st)
  {
    LogState(0, FLAG_MASK, 1, 0, 0, [0, 0])
  }

  /**
   * Writing the record [0x80, 0x00] with flag 0x80 into record 0 of a ring
   * at address 0 with two-byte records stores 0x80, 0x80 and keeps every
   * other byte.
   */
  lemma FirstRecordBytes(mem: seq<bv8>, g: Geometry, s: seq<bv8>, m: seq<bv8>)
    requires ValidGeometry(g) && g.recSize == 2 && g.start == 0 && RingEnd(g) <= |mem|
    requires s == [0x80, 0x00]
    requires |m| == |mem| && m[0] == 0x80 && m[1] == 0x80 && m[2..] == mem[2..]
    ensures WriteSlot(mem, g, 0, Encode(s, FLAG_MASK)) == m
  {
    var w := WriteSlot(mem, g, 0, Encode(s, FLAG_MASK));
    assert Address(g, 0) == 0;
    assert w[0] == m[0] && w[1] == m[1];
    assert forall k :: 2 <= k < |m| ==> w[k] == mem[k] == m[k];
  }

  /**
   * The scan as written misses the record just written. On three records of
   * two bytes at address 0 with seven zero bytes of memory (zero), the scan
   * as written gives write cursor 0, flag 0x80 and read cursor 1: the state
   * st. Writing the record [0x80, 0x00] from there stores 0x80, 0x80 into
   * record 0 (giving m) and commits write cursor 1 with flag 0x80. The
   * corrected scan recovers exactly that, but the scan as written reads
   * bytes 2, 4 and 6, still zero, and gives write cursor 0 again, so the
   * next record overwrites the newest one.
   */
  lemma AsWrittenMissesNewestRecord(g: Geometry, zero: seq<bv8>, st: LogState, s: seq<bv8>, m: seq<bv8>)
    requires g == Recovery.SmallRing() && st == AsWrittenStart() && s == [0x80, 0x00]
    requires |zero| == 7 && forall k :: 0 <= k < 7 ==> zero[k] == 0
    requires |m| == 7 && m[0] == 0x80 && m[1] == 0x80 && forall k :: 2 <= k < 7 ==> m[k] == 0
    ensures RingEnd(g) < |zero| && RingEnd(g) < 0x1_0000 && StateOk(g, st)
    ensures Recovery.ScanAsWritten(zero, g) == Recovery.Recovered(st.rec, st.flag, st.readRec)
    ensures WriteSlot(zero, g, st.rec, Encode(s, st.flag)) == m
    ensures Commit(g, st).rec == 1 && Commit(g, st).flag == FLAG_MASK
    ensures Recovery.Scan(m, g) == Recovery.Recovered(1, FLAG_MASK, 2)
    ensures Recovery.ScanAsWritten(m, g) == Recovery.Recovered(0, FLAG_MASK, 1)
  {
    Recovery.AsWrittenOnZeroByteProbes(zero, g);
    assert m[2..] == zero[2..];
    FirstRecordBytes(zero, g, s, m);
    Recovery.ZeroMemoryLayout(zero, g);
    WriteKeepsLayout(zero, g, st, s);
    Recovery.ScanRecoversLayout(m, g, 1, FLAG_MASK);
    Recovery.AsWrittenOnZeroByteProbes(m, g);
  }
}
