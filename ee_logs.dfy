/**
 * One logger instance, as the LOGGER(name, recs, rec_size, start_addr) macro
 * expands it: the statics Log_CurRec, Log_CurFlag, Log_CurReadRec, the
 * staging buffer Log_RecBuf and the writer's statics `a` and `i` become the
 * fields of a Log object, and each function of the instance a method.
 * The EEPROM is an array the methods read (ReadEE) and write (WriteEE)
 * directly; isEEfree() is a parameter of the write.
 */
module EeLogs {
  import opened Opt
  import opened Ring
  import opened SlotCodec
  import Recovery
  import Traversal
  import Writer

  class Log {
    /** The macro arguments recs, rec_size and start_addr. */
    const recs: nat
    const recSize: nat
    const start: nat
    /** The EEPROM, addressed from 0. */
    const ee: array<bv8>
    /** Log_RecBuf: the record being written, with its byte 0 already replaced by 1. */
    const recBuf: array<bv8>

    /** Log_CurRec: the record the next write goes to. */
    var curRec: nat
    /** Log_CurFlag: the service bit the next record carries. */
    var curFlag: bv8
    /** Log_CurReadRec: the 'current record' of the read functions. */
    var curReadRec: nat
    /** The writer's static `a`: the next EEPROM address, 0 when idle. */
    var wrAddr: nat
    /** The writer's static `i`: the index in the record of the next byte. */
    var wrIdx: nat

    function Geom(): Geometry
    {
      Geometry(recs, recSize, start)
    }

    /** The logger's state as the writer's state machine sees it. */
    ghost function State(): Writer.LogState
      reads this, recBuf
    {
      Writer.LogState(curRec, curFlag, curReadRec, wrAddr, wrIdx, recBuf[..])
    }

    /**
     * What holds from the zero-initialised start on: a geometry that fits
     * unsigned char cursors and the EEPROM, a staging buffer of its own, and
     * a writer state that StateOk accepts.
     */
    ghost predicate WellFormed()
      reads this, recBuf
    {
      && ValidGeometry(Geom()) && RingEnd(Geom()) <= ee.Length
      && recBuf.Length == recSize && recBuf != ee
      && Writer.StateOk(Geom(), State())
    }

    /** After Log_InitLog: the read cursor never sits on the write cursor. */
    ghost predicate Valid()
      reads this, recBuf
    {
      WellFormed() && curReadRec != curRec
    }

    /** The statics of a freshly started program: all zero. */
    constructor (recs: nat, recSize: nat, start: nat, ee: array<bv8>)
      requires ValidGeometry(Geometry(recs, recSize, start)) && RingEnd(Geometry(recs, recSize, start)) <= ee.Length
      ensures WellFormed() && this.ee == ee && fresh(recBuf)
      ensures this.recs == recs && this.recSize == recSize && this.start == start
      ensures curRec == 0 && curFlag == 0 && curReadRec == 0 && wrAddr == 0 && wrIdx == 0
    {
      this.recs := recs;
      this.recSize := recSize;
      this.start := start;
      this.ee := ee;
      recBuf := new bv8[recSize](_ => 0);
      curRec := 0;
      curFlag := 0;
      curReadRec := 0;
      wrAddr := 0;
      wrIdx := 0;
    }

    /**
     * Log_ReadRec: copies record r to dst, the last byte with its service bit
     * cleared. Only the first REC_SIZE bytes of dst change.
     */
    method ReadRec(dst: array<bv8>, r: nat)
      requires WellFormed() && r < recs
      requires dst.Length >= recSize && dst != ee && dst != recBuf
      modifies dst
      ensures dst[..recSize] == Decode(ee[..], Geom(), r)
      ensures dst[recSize..] == old(dst[recSize..])
    {
      var base := Address(Geom(), r);
      var a := base;
      var k := 0;
      var i := recSize - 1;
      while i != 0
        invariant 0 <= i <= recSize - 1 && k == recSize - 1 - i && a == base + k
        invariant dst[..k] == ee[base .. base + k]
        invariant dst[recSize..] == old(dst[recSize..])
      {
        dst[k] := ee[a];
        k := k + 1;
        a := a + 1;
        i := i - 1;
      }
      dst[k] := Unflag(ee[a]);
      assert dst[..recSize] == dst[..k] + [dst[k]];
    }

    /**
     * The loop of Log_InitLog from probe address `first`: the reference flag
     * is the service bit at `first`; the write cursor becomes the first step
     * cr in 1 .. recs-1 whose probe differs from it, the read cursor the
     * record after; with no difference the cursors are 0 and 1 and the flag
     * is inverted. The writer's own statics are not touched.
     */
    method Rescan(first: nat)
      requires WellFormed() && Recovery.ProbesFit(ee[..], Geom(), first)
      modifies this
      ensures Recovery.Recovered(curRec, curFlag, curReadRec) == Recovery.ScanFrom(ee[..], Geom(), first)
      ensures wrAddr == old(wrAddr) && wrIdx == old(wrIdx)
      ensures Valid()
    {
      ghost var mem := ee[..];
      var a := first;
      var f := ReadFlag(ee[a]);
      assert f == Recovery.Probe(mem, Geom(), first, 0);
      var cr: nat := 1;
      curFlag := f;
      while cr < recs
        invariant 1 <= cr <= recs && a == first + Span(cr - 1, recSize)
        invariant curFlag == f && curRec == old(curRec) && curReadRec == old(curReadRec)
        invariant wrAddr == old(wrAddr) && wrIdx == old(wrIdx)
        invariant forall j :: 1 <= j < cr ==> Recovery.Probe(mem, Geom(), first, j) == f
        decreases recs - cr
      {
        assert Span(cr - 1, recSize) + recSize == Span(cr, recSize);
        a := a + recSize;
        SpanMono(cr, recs - 1, recSize);
        var p := ReadFlag(ee[a]);
        assert p == Recovery.Probe(mem, Geom(), first, cr);
        if f ^ p != 0 {
          Recovery.ScanFollowsFirstMismatch(mem, Geom(), first, cr);
          curRec := cr;
          cr := StepUp(cr, recs);
          curReadRec := cr;
          assert State() == old(State()).(rec := curRec, flag := curFlag, readRec := curReadRec);
          return;
        }
        cr := cr + 1;
      }
      Recovery.ScanFollowsFirstMismatch(mem, Geom(), first, recs);
      curRec := 0;
      curReadRec := 1;
      curFlag := f ^ FLAG_MASK;
      assert State() == old(State()).(rec := curRec, flag := curFlag, readRec := curReadRec);
    }

    /**
     * Log_InitLog with its probes on the flag bytes of records 0 .. recs-1:
     * the cursors and the flag are what Recovery.Scan reads off the EEPROM.
     */
    method InitLog()
      requires WellFormed()
      modifies this
      ensures Recovery.Recovered(curRec, curFlag, curReadRec) == Recovery.Scan(ee[..], Geom())
      ensures wrAddr == old(wrAddr) && wrIdx == old(wrIdx)
      ensures Valid()
    {
      Recovery.ProbeIsFlag(ee[..], Geom(), 0);
      Rescan(start + recSize - 1);
    }

    /**
     * Log_InitLog as written, probing from `start_addr + rec_size`; its last
     * probe reads the byte just past the ring.
     */
    method InitLogAsWritten()
      requires WellFormed() && RingEnd(Geom()) < ee.Length && RingEnd(Geom()) < 0x1_0000
      modifies this
      ensures Recovery.Recovered(curRec, curFlag, curReadRec) == Recovery.ScanAsWritten(ee[..], Geom())
      ensures wrAddr == old(wrAddr) && wrIdx == old(wrIdx)
      ensures Valid()
    {
      assert Span(recs - 1, recSize) + recSize == Span(recs, recSize);
      Rescan(start + recSize);
    }

    /** Log_ReadFirst: the read cursor moves to the oldest record, which is copied to dst. */
    method ReadFirst(dst: array<bv8>)
      requires WellFormed() && dst.Length >= recSize && dst != ee && dst != recBuf
      modifies this, dst
      ensures curReadRec == Traversal.First(curRec, recs) && Valid()
      ensures curRec == old(curRec) && curFlag == old(curFlag) && wrAddr == old(wrAddr) && wrIdx == old(wrIdx)
      ensures dst[..recSize] == Decode(ee[..], Geom(), curReadRec)
      ensures dst[recSize..] == old(dst[recSize..])
    {
      var r := StepUp(curRec, recs);
      StepUpIsSuccessor(curRec, recs);
      curReadRec := r;
      ReadRec(dst, r);
    }

    /** Log_ReadLast: the read cursor moves to the newest record, which is copied to dst. */
    method ReadLast(dst: array<bv8>)
      requires WellFormed() && dst.Length >= recSize && dst != ee && dst != recBuf
      modifies this, dst
      ensures curReadRec == Traversal.Last(curRec, recs) && Valid()
      ensures curRec == old(curRec) && curFlag == old(curFlag) && wrAddr == old(wrAddr) && wrIdx == old(wrIdx)
      ensures dst[..recSize] == Decode(ee[..], Geom(), curReadRec)
      ensures dst[recSize..] == old(dst[recSize..])
    {
      var r := StepDown(curRec, recs);
      StepDownIsPredecessor(curRec, recs);
      curReadRec := r;
      ReadRec(dst, r);
    }

    /**
     * Log_ReadNext: unless the record after the current one is the write
     * cursor, the read cursor moves to it, it is copied to dst and the result
     * is 1; otherwise the result is 0 and nothing changes.
     */
    method ReadNext(dst: array<bv8>) returns (ok: bool)
      requires WellFormed() && dst.Length >= recSize && dst != ee && dst != recBuf
      modifies this, dst
      ensures WellFormed() && (old(curReadRec != curRec) ==> Valid())
      ensures curRec == old(curRec) && curFlag == old(curFlag) && wrAddr == old(wrAddr) && wrIdx == old(wrIdx)
      ensures ok <==> Traversal.NextMove(curRec, old(curReadRec), recs).Some?
      ensures ok ==> curReadRec == Traversal.NextMove(curRec, old(curReadRec), recs).value
      ensures ok ==> dst[..recSize] == Decode(ee[..], Geom(), curReadRec)
      ensures !ok ==> curReadRec == old(curReadRec) && dst[..] == old(dst[..])
      ensures dst[recSize..] == old(dst[recSize..])
    {
      var r := StepUp(curReadRec, recs);
      StepUpIsSuccessor(curReadRec, recs);
      if r == curRec {
        return false;
      }
      curReadRec := r;
      ReadRec(dst, r);
      return true;
    }

    /**
     * Log_ReadPrev: unless the record before the current one is the write
     * cursor, the read cursor moves to it, it is copied to dst and the result
     * is 1; otherwise the result is 0 and nothing changes.
     */
    method ReadPrev(dst: array<bv8>) returns (ok: bool)
      requires WellFormed() && dst.Length >= recSize && dst != ee && dst != recBuf
      modifies this, dst
      ensures WellFormed() && (old(curReadRec != curRec) ==> Valid())
      ensures curRec == old(curRec) && curFlag == old(curFlag) && wrAddr == old(wrAddr) && wrIdx == old(wrIdx)
      ensures ok <==> Traversal.PrevMove(curRec, old(curReadRec), recs).Some?
      ensures ok ==> curReadRec == Traversal.PrevMove(curRec, old(curReadRec), recs).value
      ensures ok ==> dst[..recSize] == Decode(ee[..], Geom(), curReadRec)
      ensures !ok ==> curReadRec == old(curReadRec) && dst[..] == old(dst[..])
      ensures dst[recSize..] == old(dst[recSize..])
    {
      var r := StepDown(curReadRec, recs);
      StepDownIsPredecessor(curReadRec, recs);
      if r == curRec {
        return false;
      }
      curReadRec := r;
      ReadRec(dst, r);
      return true;
    }

    /** Log_ReadCur: the current record is copied to dst; the cursors stay. */
    method ReadCur(dst: array<bv8>)
      requires WellFormed() && dst.Length >= recSize && dst != ee && dst != recBuf
      modifies dst
      ensures dst[..recSize] == Decode(ee[..], Geom(), curReadRec)
      ensures dst[recSize..] == old(dst[recSize..])
    {
      ReadRec(dst, curReadRec);
    }

    /**
     * The ready call that writes the last byte of a record: the byte goes out
     * with the current flag in its service bit and the cursors commit.
     */
    method WriteLastByte()
      requires WellFormed() && wrAddr != 0 && wrIdx == recSize - 1
      modifies this, ee
      ensures State() == Writer.Commit(Geom(), old(State()))
      ensures ee[..] == old(ee[..])[wrAddr := PackLast(recBuf[recSize - 1], old(curFlag))]
    {
      ee[wrAddr] := curFlag | Unflag(recBuf[wrIdx]);
      CommitCursors();
    }

    /**
     * The cursor update after the last byte: Log_CurRec moves on, the flag
     * flips when it wraps to record 0, and Log_CurReadRec steps aside when
     * the write cursor lands on it.
     */
    method CommitCursors()
      requires ValidGeometry(Geom()) && curRec < recs && curReadRec < recs
      modifies this
      ensures State() == Writer.Commit(Geom(), old(State()))
    {
      var r := StepUp(curRec, recs);
      if MinusLast(curRec, recs) == 0 {
        curFlag := curFlag ^ FLAG_MASK;
      }
      if curReadRec == r {
        curReadRec := WrapInc(curReadRec, recs);
      }
      curRec := r;
      wrIdx := recSize;
    }

    /** A ready call in the middle of a record: byte wrIdx of the staging buffer goes out. */
    method WriteNextByte()
      requires WellFormed() && wrAddr != 0 && wrIdx < recSize - 1
      modifies this, ee
      ensures State() == old(State()).(addr := old(wrAddr) + 1, idx := old(wrIdx) + 1)
      ensures ee[..] == old(ee[..])[old(wrAddr) := recBuf[old(wrIdx)]]
    {
      ee[wrAddr] := recBuf[wrIdx];
      wrAddr := wrAddr + 1;
      wrIdx := wrIdx + 1;
    }

    /**
     * The ready call that accepts a record: byte 0 of src goes out to the
     * write cursor's record, and the staging buffer takes 1 followed by the
     * rest of src.
     */
    method StartRecord(src: array<bv8>)
      requires WellFormed() && src.Length >= recSize && src != ee && src != recBuf
      modifies this, ee, recBuf
      ensures State() == old(State()).(addr := old(Address(Geom(), curRec)) + 1, idx := 1,
                                       buf := [1] + old(src[..recSize])[1..])
      ensures ee[..] == old(ee[..])[old(Address(Geom(), curRec)) := old(src[0])]
    {
      ghost var s := src[..recSize];
      wrAddr := Address(Geom(), curRec);
      var i := recSize - 1;
      ee[wrAddr] := src[0];
      wrAddr := wrAddr + 1;
      recBuf[0] := 1;
      var p := 1;
      while i != 0
        invariant 1 <= p <= recSize && i == recSize - p
        invariant recBuf[..p] == [1] + s[1..p]
        modifies recBuf
      {
        recBuf[p] := src[p];
        p := p + 1;
        i := i - 1;
      }
      assert recBuf[..] == recBuf[..p];
      wrIdx := 1;
    }

    /**
     * Log_NoblockingWrite with `eeFree` the value of isEEfree() and src null
     * or a record of REC_SIZE bytes: one step of Writer.WriteStep, with the
     * byte write it issues performed on the EEPROM.
     */
    method NoblockingWrite(src: array?<bv8>, eeFree: bool) returns (ret: bool)
      requires WellFormed()
      requires src != null ==> src.Length >= recSize && src != ee && src != recBuf
      modifies this, ee, recBuf
      ensures WellFormed() && (old(curReadRec != curRec) ==> Valid())
      ensures var o := Writer.WriteStep(Geom(), old(State()), eeFree,
                                        if src == null then None else Some(old(src[..recSize])));
        && State() == o.st && ret == o.ret
        && ee[..] == Writer.ApplyIssued(old(ee[..]), o.issued)
    {
      ghost var o := Writer.WriteStep(Geom(), State(), eeFree, if src == null then None else Some(src[..recSize]));
      if !eeFree {
        return false;
      }
      if wrAddr != 0 {
        if wrIdx != recSize {
          if wrIdx == recSize - 1 {
            WriteLastByte();
          } else {
            WriteNextByte();
          }
          return false;
        }
        wrAddr := 0;
      }
      if src == null {
        return true;
      }
      StartRecord(src);
      return true;
    }
  }
}
