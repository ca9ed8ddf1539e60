/**
 * The receive interrupt running between any two instructions of `uart_util_read`. The reader snapshots the unread
 * count, copies bytes while advancing only its own index, and subtracts the count at the end.
 */
module UartInterleaving {
  import opened Bytes
  import opened UartRing

  /** Program counter of the reader. `Copying(n, i, true)` has loaded byte `i` but not yet advanced the read index. */
  datatype Reader =
    | Idle
    | Entered(want: nat)
    | Copying(n: nat, i: nat, loaded: bool)

  datatype Step = Interrupt(data: byte) | Call(want: nat) | TakeSnapshot | Load | Advance | Subtract

  /** The ring, the reader, and two histories: bytes the interrupt stored, bytes the reader copied out. */
  datatype Sys = Sys(rx: Rx, reader: Reader, accepted: seq<byte>, returned: seq<byte>)

  function Start(): Sys {
    Sys(Rx(seq(UART_BUF_SIZE, _ => 0), 0, 0, 0), Idle, [], [])
  }

  /** One step; a step that is not enabled changes nothing. */
  function Next(s: Sys, step: Step): Sys {
    var rx := s.rx;
    match step
    case Interrupt(data) =>
      if rx.numUnread < UART_BUF_SIZE then s.(rx := Accept(rx, data), accepted := s.accepted + [data]) else s
    case Call(want) =>
      if s.reader.Idle? && rx.numUnread != 0 then s.(reader := Entered(want)) else s
    case TakeSnapshot =>
      if s.reader.Entered? then
        var n := if s.reader.want > rx.numUnread then rx.numUnread else s.reader.want;
        s.(reader := Copying(n, 0, false))
      else s
    case Load =>
      if s.reader.Copying? && !s.reader.loaded && s.reader.i < s.reader.n && rx.ridx < |rx.cells| then
        s.(reader := s.reader.(loaded := true), returned := s.returned + [rx.cells[rx.ridx]])
      else s
    case Advance =>
      if s.reader.Copying? && s.reader.loaded then
        s.(reader := Copying(s.reader.n, s.reader.i + 1, false), rx := rx.(ridx := (rx.ridx + 1) % UART_BUF_SIZE))
      else s
    case Subtract =>
      if s.reader.Copying? && !s.reader.loaded && s.reader.i == s.reader.n && s.reader.n <= rx.numUnread then
        s.(reader := Idle, rx := rx.(numUnread := rx.numUnread - s.reader.n))
      else s
  }

  function Run(s: Sys, steps: seq<Step>): Sys {
    if steps == [] then s else Next(Run(s, steps[..|steps| - 1]), steps[|steps| - 1])
  }

  /** Bytes copied out by the call in progress, whose space the interrupt still counts as taken. */
  function Uncounted(r: Reader): nat {
    if r.Copying? then r.i + (if r.loaded then 1 else 0) else 0
  }

  /** Bytes copied out whose cell the read index has not passed yet: 0 or 1. */
  function Lagging(r: Reader): nat {
    if r.Copying? && r.loaded then 1 else 0
  }

  /** Accepted bytes not yet copied out. */
  function Queue(s: Sys): seq<byte>
    requires |s.returned| <= |s.accepted|
  {
    s.accepted[|s.returned|..]
  }

  /** Cell that the k-th accepted byte is stored in. */
  function Cell(k: nat): nat {
    k % UART_BUF_SIZE
  }

  ghost predicate Stored(cells: seq<byte>, accepted: seq<byte>, from: nat)
    requires |cells| == UART_BUF_SIZE
  {
    forall k :: from <= k < |accepted| ==> cells[Cell(k)] == accepted[k]
  }

  ghost predicate Inv(s: Sys) {
    var a, r := |s.accepted|, |s.returned|;
    && |s.rx.cells| == UART_BUF_SIZE
    && s.returned <= s.accepted
    && (s.reader.Copying? ==> Uncounted(s.reader) <= s.reader.n <= s.rx.numUnread)
    && (s.reader.Entered? ==> 0 < s.rx.numUnread)
    && s.rx.numUnread == a - r + Uncounted(s.reader) <= UART_BUF_SIZE
    && Uncounted(s.reader) <= r
    && s.rx.widx == Cell(a)
    && s.rx.ridx == Cell(r - Lagging(s.reader))
    && Stored(s.rx.cells, s.accepted, r)
  }

  /** Two positions less than a turn apart use different cells. */
  lemma CellsDiffer(j: nat, k: nat)
    requires j < k < j + UART_BUF_SIZE
    ensures Cell(j) != Cell(k)
  {}

  lemma CellShift(k: nat, d: nat)
    ensures (Cell(k) + d) % UART_BUF_SIZE == Cell(k + d)
  {}

  lemma StoreKeeps(cells: seq<byte>, accepted: seq<byte>, r: nat, data: byte)
    requires |cells| == UART_BUF_SIZE && r <= |accepted| < r + UART_BUF_SIZE
    requires Stored(cells, accepted, r)
    ensures Stored(cells[Cell(|accepted|) := data], accepted + [data], r)
  {
    forall k | r <= k < |accepted|
      ensures Cell(k) != Cell(|accepted|)
    {
      CellsDiffer(k, |accepted|);
    }
  }

  lemma InterruptKeeps(s: Sys, data: byte)
    requires Inv(s)
    ensures Inv(Next(s, Interrupt(data)))
  {
    if s.rx.numUnread < UART_BUF_SIZE {
      StoreKeeps(s.rx.cells, s.accepted, |s.returned|, data);
      CellShift(|s.accepted|, 1);
      assert Next(s, Interrupt(data)).rx.cells == s.rx.cells[Cell(|s.accepted|) := data];
    }
  }

  lemma LoadKeeps(s: Sys)
    requires Inv(s)
    ensures Inv(Next(s, Load))
  {
    if s.reader.Copying? && !s.reader.loaded && s.reader.i < s.reader.n {
      var r := |s.returned|;
      assert s.rx.cells[Cell(r)] == s.accepted[r];
      assert s.accepted[..r + 1] == s.accepted[..r] + [s.accepted[r]];
    }
  }

  lemma StepKeeps(s: Sys, step: Step)
    requires Inv(s)
    ensures Inv(Next(s, step))
  {
    match step
    case Interrupt(data) => InterruptKeeps(s, data);
    case Load => LoadKeeps(s);
    case _ =>
  }

  lemma {:induction false} RunKeeps(steps: seq<Step>)
    ensures Inv(Run(Start(), steps))
  {
    if steps != [] {
      RunKeeps(steps[..|steps| - 1]);
      StepKeeps(Run(Start(), steps[..|steps| - 1]), steps[|steps| - 1]);
    }
  }

  /** The unread bytes sit in the ring in order. */
  lemma QueueIsInRing(cells: seq<byte>, accepted: seq<byte>, r: nat)
    requires |cells| == UART_BUF_SIZE && r <= |accepted| <= r + UART_BUF_SIZE
    requires Stored(cells, accepted, r)
    ensures accepted[r..] == Linear(cells, Cell(r), |accepted| - r)
  {
    var ring := Linear(cells, Cell(r), |accepted| - r);
    forall i | 0 <= i < |accepted| - r
      ensures accepted[r..][i] == ring[i]
    {
      CellShift(r, i);
      assert cells[Cell(r + i)] == accepted[r + i];
    }
  }

  /** The write index trails the read index by the counted bytes less those copied but not yet subtracted. */
  lemma Bookkeeping(s: Sys)
    requires Inv(s)
    ensures s.rx.widx ==
            (s.rx.ridx + s.rx.numUnread - (Uncounted(s.reader) - Lagging(s.reader))) % UART_BUF_SIZE
  {
    var passed := |s.returned| - Lagging(s.reader);
    CellShift(passed, |s.accepted| - passed);
  }

  lemma NextStoreIsFree(s: Sys)
    requires Inv(s) && s.rx.numUnread < UART_BUF_SIZE
    ensures forall k :: |s.returned| <= k < |s.accepted| ==> Cell(k) != s.rx.widx
  {
    forall k | |s.returned| <= k < |s.accepted|
      ensures Cell(k) != s.rx.widx
    {
      CellsDiffer(k, |s.accepted|);
    }
  }

  /** The bytes between the two histories are intact in the ring, and no store can hit them. */
  ghost predicate Intact(s: Sys) {
    && |s.returned| <= |s.accepted|
    && |Queue(s)| + Uncounted(s.reader) == s.rx.numUnread <= |s.rx.cells| == UART_BUF_SIZE
    && Queue(s) == Linear(s.rx.cells, Cell(|s.returned|), |Queue(s)|)
    && (s.rx.numUnread < UART_BUF_SIZE ==>
          forall k :: |s.returned| <= k < |s.accepted| ==> Cell(k) != s.rx.widx)
  }

  lemma InvIsIntact(s: Sys)
    requires Inv(s)
    ensures Intact(s)
  {
    QueueIsInRing(s.rx.cells, s.accepted, |s.returned|);
    if s.rx.numUnread < UART_BUF_SIZE {
      NextStoreIsFree(s);
    }
  }

  /**
   * Every interleaving is first-in first-out: the bytes returned are a prefix of the bytes accepted, the bytes
   * between are intact in the ring, the next store hits none of them, and the indices satisfy the deferred
   * book-keeping equation.
   */
  lemma EveryRunIsFifo(steps: seq<Step>)
    ensures var s := Run(Start(), steps);
            && s.returned <= s.accepted
            && Intact(s)
            && s.rx.widx ==
               (s.rx.ridx + s.rx.numUnread - (Uncounted(s.reader) - Lagging(s.reader))) % UART_BUF_SIZE
  {
    RunKeeps(steps);
    InvIsIntact(Run(Start(), steps));
    Bookkeeping(Run(Start(), steps));
  }

  /** What one step does to the abstract queue; a byte is refused exactly when the counted bytes fill the ring. */
  ghost predicate QueueStep(s: Sys, step: Step, t: Sys)
    requires |s.returned| <= |s.accepted| && |t.returned| <= |t.accepted|
  {
    if step.Interrupt? && |Queue(s)| + Uncounted(s.reader) < UART_BUF_SIZE then
      Queue(t) == Queue(s) + [step.data] && t.returned == s.returned
    else if t.returned != s.returned then
      step == Load && Queue(s) != [] && t.returned == s.returned + [Queue(s)[0]] && Queue(t) == Queue(s)[1..]
    else
      Queue(t) == Queue(s)
  }

  /** Each step of every run refines a bounded queue. */
  lemma EveryStepRefinesQueue(steps: seq<Step>, step: Step)
    ensures var s := Run(Start(), steps);
            var t := Next(s, step);
            |s.returned| <= |s.accepted| && |t.returned| <= |t.accepted| && QueueStep(s, step, t)
  {
    RunKeeps(steps);
    var s := Run(Start(), steps);
    StepKeeps(s, step);
    if step == Load && Next(s, step).returned != s.returned {
      assert s.rx.cells[Cell(|s.returned|)] == s.accepted[|s.returned|];
    }
  }

  /** A read that starts on an idle reader and runs to the end, whatever interrupts fall between its steps. */
  ghost predicate WholeRead(s: Sys, want: nat, steps: seq<Step>) {
    && s.reader.Idle?
    && 0 < |steps| && steps[0] == Call(want)
    && (forall k :: 0 < k < |steps| ==> !steps[k].Call?)
    && Run(s, steps).reader.Idle?
  }

  /** Progress of one call: what it has handed out so far comes from the queue it found. */
  ghost predicate InRead(s: Sys, want: nat, t: Sys) {
    && s.accepted <= t.accepted
    && |s.returned| <= |t.returned|
    && match t.reader
       case Idle => Min(want, s.rx.numUnread) <= |t.returned| - |s.returned| <= want
       case Entered(w) => w == want && t.returned == s.returned && s.rx.numUnread <= t.rx.numUnread
       case Copying(n, i, loaded) =>
         && |t.returned| - |s.returned| == Uncounted(t.reader)
         && Min(want, s.rx.numUnread) <= n <= want
  }

  lemma InReadStep(s: Sys, want: nat, t: Sys, step: Step)
    requires Inv(t) && InRead(s, want, t) && !step.Call?
    ensures InRead(s, want, Next(t, step))
  {}

  lemma {:induction false} InReadHolds(pre: seq<Step>, want: nat, steps: seq<Step>)
    requires var s := Run(Start(), pre); s.reader.Idle? && s.rx.numUnread > 0
    requires 0 < |steps| && steps[0] == Call(want)
    requires forall k :: 0 < k < |steps| ==> !steps[k].Call?
    ensures var t := Run(Run(Start(), pre), steps);
            Inv(t) && InRead(Run(Start(), pre), want, t)
  {
    var s := Run(Start(), pre);
    RunKeeps(pre);
    var front := steps[..|steps| - 1];
    if |steps| == 1 {
      assert front == [];
      StepKeeps(s, steps[0]);
    } else {
      InReadHolds(pre, want, front);
      StepKeeps(Run(s, front), steps[|steps| - 1]);
      InReadStep(s, want, Run(s, front), steps[|steps| - 1]);
    }
  }

  /**
   * A call that found bytes and has completed handed out at most what was asked for, and at least that or everything
   * that was unread when it began.
   */
  lemma ReadDelivers(pre: seq<Step>, want: nat, steps: seq<Step>)
    requires WholeRead(Run(Start(), pre), want, steps)
    requires Run(Start(), pre).rx.numUnread > 0
    ensures var s, t := Run(Start(), pre), Run(Run(Start(), pre), steps);
            && Min(want, s.rx.numUnread) <= |t.returned| - |s.returned| <= want
            && t.returned <= t.accepted && s.accepted <= t.accepted
  {
    InReadHolds(pre, want, steps);
  }
}
