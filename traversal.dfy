/**
 * The read cursor's moves (Log_ReadFirst, Log_ReadLast, Log_ReadNext,
 * Log_ReadPrev) as functions of the write cursor `rec`, and what walking the
 * ring with them yields. The write cursor is a sentinel: it is never read,
 * so of the recs records exactly recs-1 are readable.
 */
module Traversal {
  import opened Opt
  import opened Ring

  /** Log_ReadFirst's record: the oldest readable one, just after the write cursor. */
  function First(rec: nat, recs: nat): nat
    requires recs > 0
  {
    (rec + 1) % recs
  }

  /** Log_ReadLast's record: the newest one, just before the write cursor. */
  function Last(rec: nat, recs: nat): nat
    requires recs > 0
  {
    (rec - 1) % recs
  }

  /** Log_ReadNext: the record after `read`, unless that is the write cursor. */
  function NextMove(rec: nat, read: nat, recs: nat): Option<nat>
    requires recs > 0
  {
    var c := (read + 1) % recs;
    if c == rec then None else Some(c)
  }

  /** Log_ReadPrev: the record before `read`, unless that is the write cursor. */
  function PrevMove(rec: nat, read: nat, recs: nat): Option<nat>
    requires recs > 0
  {
    var c := (read - 1) % recs;
    if c == rec then None else Some(c)
  }

  /** The read cursor after n calls of Log_ReadNext from `read`, or None once one of them fails. */
  ghost function Forward(rec: nat, recs: nat, read: nat, n: nat): Option<nat>
    requires recs > 0
    decreases n
  {
    if n == 0 then Some(read)
    else match NextMove(rec, read, recs)
      case None => None
      case Some(r) => Forward(rec, recs, r, n - 1)
  }

  /** The read cursor after n calls of Log_ReadPrev from `read`, or None once one of them fails. */
  ghost function Backward(rec: nat, recs: nat, read: nat, n: nat): Option<nat>
    requires recs > 0
    decreases n
  {
    if n == 0 then Some(read)
    else match PrevMove(rec, read, recs)
      case None => None
      case Some(r) => Backward(rec, recs, r, n - 1)
  }

  /** The t-th readable record counted from the oldest: (rec + 1 + t) mod recs. */
  function Pos(rec: nat, recs: nat, t: nat): (p: nat)
    requires rec < recs && t < recs
    ensures p < recs
    ensures p == if rec + 1 + t < recs then rec + 1 + t else rec + 1 + t - recs
    ensures p == rec <==> t == recs - 1
  {
    ModSmall(rec + 1 + t, recs);
    (rec + 1 + t) % recs
  }

  /** One step of Log_ReadNext from position t reaches position t+1, unless t+1 is the write cursor. */
  lemma NextFromPos(rec: nat, recs: nat, t: nat)
    requires rec < recs && t + 1 < recs
    ensures NextMove(rec, Pos(rec, recs, t), recs) ==
              if t + 1 == recs - 1 then None else Some(Pos(rec, recs, t + 1))
  {
    ModSucc(Pos(rec, recs, t), recs);
  }

  /** One step of Log_ReadPrev from position t+1 reaches position t, unless t is past the oldest. */
  lemma PrevFromPos(rec: nat, recs: nat, t: nat)
    requires rec < recs && t < recs - 1
    ensures PrevMove(rec, Pos(rec, recs, t + 1), recs) == Some(Pos(rec, recs, t))
  {
    var p: int := Pos(rec, recs, t + 1);
    if p == 0 { ModNeg(p - 1, recs); } else { ModBelow(p - 1, recs); }
  }

  /** From position t, n further calls of Log_ReadNext walk through positions t+1 .. t+n. */
  lemma {:induction false} ForwardFrom(rec: nat, recs: nat, t: nat, n: nat)
    requires rec < recs && t < recs - 1 && t + n < recs
    ensures Forward(rec, recs, Pos(rec, recs, t), n) ==
              if t + n == recs - 1 then None else Some(Pos(rec, recs, t + n))
    decreases n
  {
    if n > 0 {
      NextFromPos(rec, recs, t);
      if t + 1 < recs - 1 {
        ForwardFrom(rec, recs, t + 1, n - 1);
        assert Forward(rec, recs, Pos(rec, recs, t), n) == Forward(rec, recs, Pos(rec, recs, t + 1), n - 1);
      } else {
        assert n == 1;
        assert NextMove(rec, Pos(rec, recs, t), recs) == None;
        assert Forward(rec, recs, Pos(rec, recs, t), n) == None;
      }
    }
  }

  /**
   * Starting from Log_ReadFirst, the first recs-2 calls of Log_ReadNext
   * succeed, the n-th reaching the n-th readable record, and the next one
   * fails: exactly recs-1 records can be read.
   */
  lemma ForwardWindow(rec: nat, recs: nat, n: nat)
    requires rec < recs && 2 <= recs && n < recs
    ensures First(rec, recs) == Pos(rec, recs, 0)
    ensures n <= recs - 2 ==> Forward(rec, recs, First(rec, recs), n) == Some(Pos(rec, recs, n))
    ensures n == recs - 1 ==> Forward(rec, recs, First(rec, recs), n).None?
  {
    ForwardFrom(rec, recs, 0, n);
  }

  /** From position t, n calls of Log_ReadPrev walk back through positions t-1 .. t-n. */
  lemma {:induction false} BackwardFrom(rec: nat, recs: nat, t: nat, n: nat)
    requires rec < recs && t < recs - 1 && n <= t + 1
    ensures Backward(rec, recs, Pos(rec, recs, t), n) ==
              if n == t + 1 then None else Some(Pos(rec, recs, t - n))
    decreases n
  {
    if n > 0 {
      if t == 0 {
        // Position 0 is the record after rec, so the record before it is rec.
        var p: int := Pos(rec, recs, 0);
        if p == 0 { ModNeg(p - 1, recs); } else { ModBelow(p - 1, recs); }
        assert PrevMove(rec, Pos(rec, recs, 0), recs) == None;
      } else {
        PrevFromPos(rec, recs, t - 1);
        BackwardFrom(rec, recs, t - 1, n - 1);
        assert Backward(rec, recs, Pos(rec, recs, t), n) == Backward(rec, recs, Pos(rec, recs, t - 1), n - 1);
      }
    }
  }

  /**
   * Starting from Log_ReadLast, the first recs-2 calls of Log_ReadPrev
   * succeed and visit the readable records newest to oldest, the reverse of
   * the order ReadFirst / ReadNext visit them; the next call fails.
   */
  lemma BackwardWindow(rec: nat, recs: nat, n: nat)
    requires rec < recs && 2 <= recs && n < recs
    ensures Last(rec, recs) == Pos(rec, recs, recs - 2)
    ensures n <= recs - 2 ==> Backward(rec, recs, Last(rec, recs), n) == Some(Pos(rec, recs, recs - 2 - n))
    ensures n == recs - 1 ==> Backward(rec, recs, Last(rec, recs), n).None?
  {
    if rec == 0 { ModNeg(rec - 1, recs); } else { ModBelow(rec - 1, recs); }
    BackwardFrom(rec, recs, recs - 2, n);
  }

  /** The records Log_ReadFirst and Log_ReadNext can reach. */
  ghost function Window(rec: nat, recs: nat): set<nat>
    requires rec < recs
  {
    set t | 0 <= t < recs - 1 :: Pos(rec, recs, t)
  }

  /**
   * The readable window is every record but the write cursor, each reached
   * at exactly one position: positions 0 .. recs-2 are distinct, and they
   * cover all records except `rec`.
   */
  lemma WindowIsAllButWriteCursor(rec: nat, recs: nat)
    requires rec < recs
    ensures forall t, u :: 0 <= t < u < recs - 1 ==> Pos(rec, recs, t) != Pos(rec, recs, u)
    ensures forall j :: 0 <= j < recs ==> (j in Window(rec, recs) <==> j != rec)
  {
    forall j | 0 <= j < recs && j != rec
      ensures j in Window(rec, recs)
    {
      var t := if j > rec then j - rec - 1 else j + recs - rec - 1;
      assert Pos(rec, recs, t) == j;
    }
  }
}
