/**
 * The single-producer single-consumer ring. Both counters run freely and wrap with the machine word; the cell of a
 * counter is its remainder by the capacity. `word` is the number of values of the counter type (2^32 on the targets).
 */
module SpscRing {
  import opened Bytes

  /** The fields shared by producer and consumer. */
  datatype Shared = Shared(data: seq<byte>, ridx: nat, widx: nat)

  /** Unsigned difference of the counters. */
  function Unread(ring: Shared, word: nat): (n: nat)
    requires word > 0
    ensures n < word
  {
    (ring.widx - ring.ridx) % word
  }

  /** The three accesses of the producer and of the consumer. */
  function Filled(ring: Shared, b: byte): Shared
    requires |ring.data| > 0
  {
    ring.(data := ring.data[ring.widx % |ring.data| := b])
  }

  function Published(ring: Shared, word: nat): Shared
    requires word > 0
  {
    ring.(widx := (ring.widx + 1) % word)
  }

  function Oldest(ring: Shared): byte
    requires |ring.data| > 0
  {
    ring.data[ring.ridx % |ring.data|]
  }

  function Released(ring: Shared, word: nat): Shared
    requires word > 0
  {
    ring.(ridx := (ring.ridx + 1) % word)
  }

  class Rbuf {
    const word: nat
    const sz: nat
    const data: array<byte>
    var ridx: nat
    var widx: nat

    ghost predicate Valid()
      reads this
    {
      && data.Length == sz < word && ridx < word && widx < word
      && (sz == 0 ==> ridx == widx)
    }

    ghost function Snapshot(): Shared
      reads this, data
    {
      Shared(data[..], ridx, widx)
    }

    constructor (word: nat, buffer: array<byte>)
      requires buffer.Length < word
      ensures Valid() && this.word == word && data == buffer && sz == buffer.Length
      ensures ridx == 0 && widx == 0
    {
      this.word, sz, data := word, buffer.Length, buffer;
      ridx, widx := 0, 0;
    }

    method UnreadCount() returns (n: nat)
      requires Valid()
      ensures n == Unread(Snapshot(), word)
    {
      n := (widx - ridx) % word;
    }

    method WriteByte(b: byte) returns (ok: bool)
      requires Valid()
      modifies this`widx, data
      ensures Valid()
      ensures ok <==> old(Unread(Snapshot(), word)) != sz
      ensures Snapshot() == if ok then Published(Filled(old(Snapshot()), b), word) else old(Snapshot())
    {
      var n := UnreadCount();
      if n == sz {
        return false;
      }
      var idx := widx % sz;
      data[idx] := b;
      widx := (widx + 1) % word;
      return true;
    }

    method ReadByte() returns (ok: bool, b: byte)
      requires Valid()
      modifies this`ridx
      ensures Valid()
      ensures ok <==> old(Unread(Snapshot(), word)) != 0
      ensures ok ==> b == Oldest(old(Snapshot()))
      ensures Snapshot() == if ok then Released(old(Snapshot()), word) else old(Snapshot())
    {
      var n := UnreadCount();
      if n == 0 {
        return false, 0;
      }
      var idx := ridx % sz;
      b := data[idx];
      ridx := (ridx + 1) % word;
      ok := true;
    }

    method Clear()
      requires Valid()
      modifies this`ridx, this`widx, data
      ensures Valid() && ridx == 0 && widx == 0
      ensures data[..] == seq(sz, _ => 0)
    {
      ridx, widx := 0, 0;
      for i := 0 to sz
        invariant ridx == 0 && widx == 0
        invariant forall k :: 0 <= k < i ==> data[k] == 0
      {
        data[i] := 0;
      }
    }
  }

  // ----- Producer and consumer interleaved access by access

  datatype Producer = Quiet | Room(b: byte) | Stored
  datatype Consumer = Waiting | Ready | Loaded
  datatype Step = CheckRoom(b: byte) | Store | Publish | CheckReady | Load | Release

  /** The shared ring, both program counters, and the histories of bytes published and bytes loaded. */
  datatype Sys = Sys(ring: Shared, producer: Producer, consumer: Consumer, accepted: seq<byte>, returned: seq<byte>)

  function Start(sz: nat): Sys {
    Sys(Shared(seq(sz, _ => 0), 0, 0), Quiet, Waiting, [], [])
  }

  /** One access of either side; a step that is not enabled changes nothing. */
  function Next(s: Sys, word: nat, step: Step): Sys
    requires word > 0
  {
    var sz := |s.ring.data|;
    match step
    case CheckRoom(b) =>
      if s.producer.Quiet? && Unread(s.ring, word) != sz then s.(producer := Room(b)) else s
    case Store =>
      if s.producer.Room? && sz > 0 then s.(ring := Filled(s.ring, s.producer.b), producer := Stored) else s
    case Publish =>
      if s.producer.Stored? && sz > 0 then
        s.(ring := Published(s.ring, word), producer := Quiet,
           accepted := s.accepted + [s.ring.data[s.ring.widx % sz]])
      else s
    case CheckReady =>
      if s.consumer.Waiting? && Unread(s.ring, word) != 0 then s.(consumer := Ready) else s
    case Load =>
      if s.consumer.Ready? && sz > 0 then
        s.(consumer := Loaded, returned := s.returned + [Oldest(s.ring)])
      else s
    case Release =>
      if s.consumer.Loaded? then s.(ring := Released(s.ring, word), consumer := Waiting) else s
  }

  function Run(s: Sys, word: nat, steps: seq<Step>): Sys
    requires word > 0
  {
    if steps == [] then s else Next(Run(s, word, steps[..|steps| - 1]), word, steps[|steps| - 1])
  }

  /** Bytes whose cell has been given back to the producer. */
  function Freed(s: Sys): int {
    |s.returned| - (if s.consumer.Loaded? then 1 else 0)
  }

  ghost predicate InCells(data: seq<byte>, accepted: seq<byte>, from: int)
    requires |data| > 0
  {
    forall k :: 0 <= from <= k < |accepted| ==> data[k % |data|] == accepted[k]
  }

  ghost predicate Inv(s: Sys, word: nat) {
    var a, f, sz := |s.accepted|, Freed(s), |s.ring.data|;
    && 0 < sz < word && word % sz == 0
    && s.returned <= s.accepted
    && 0 <= f <= a <= f + sz
    && s.ring.widx == a % word && s.ring.ridx == f % word
    && (!s.producer.Quiet? ==> a < f + sz)
    && (s.consumer.Ready? ==> f < a)
    && InCells(s.ring.data, s.accepted, f)
  }

  // ----- Arithmetic of the wrapping counters

  /** A counter that wraps at a multiple of the capacity selects the same cell as one that never wraps. */
  lemma WrapKeepsCell(k: nat, word: nat, sz: nat)
    requires 0 < sz && 0 < word && word % sz == 0
    ensures (k % word) % sz == k % sz
  {
    var q, c := word / sz, k / word;
    assert word == q * sz;
    assert k == c * word + k % word;
    MultipleVanishes(k % word, c * q, sz);
    assert c * word == (c * q) * sz;
  }

  lemma {:induction false} MultipleVanishes(x: nat, m: nat, sz: nat)
    requires 0 < sz
    ensures (x + m * sz) % sz == x % sz
  {
    if m > 0 {
      MultipleVanishes(x, m - 1, sz);
      assert x + m * sz == x + (m - 1) * sz + sz;
      AddOnce(x + (m - 1) * sz, sz);
    }
  }

  lemma AddOnce(x: nat, sz: nat)
    requires 0 < sz
    ensures (x + sz) % sz == x % sz
  {
    var q := x / sz;
    assert x == q * sz + x % sz;
    assert x + sz == (q + 1) * sz + x % sz;
    Quotient(x + sz, sz, q + 1, x % sz);
  }

  lemma Quotient(x: nat, sz: nat, q: nat, r: nat)
    requires r < sz && x == q * sz + r
    ensures x % sz == r
  {
    var d := x / sz - q;
    assert x == (x / sz) * sz + x % sz;
    assert d * sz == r - x % sz;
    assert d >= 1 ==> d * sz >= sz;
    assert d <= -1 ==> d * sz + sz <= 0;
  }

  /** Counters less than a word apart: the wrapped difference is the true one. */
  lemma WrapKeepsDistance(j: nat, k: nat, word: nat)
    requires 0 < word && j <= k < j + word
    ensures (k % word - j % word) % word == k - j
  {
    var c, d := k / word, j / word;
    assert k == c * word + k % word && j == d * word + j % word;
    assert c * word - d * word == (c - d) * word;
    OffByMultiple(k % word - j % word, k - j, d - c, word);
  }

  lemma OffByMultiple(x: int, d: nat, m: int, word: nat)
    requires d < word && x == d + m * word && x < word && 0 < x + word
    ensures x % word == d
  {
    if x >= 0 {
      assert m >= 1 ==> m * word >= word;
      assert m <= -1 ==> m * word + word <= 0;
      Quotient(x, word, 0, x);
    } else {
      assert m >= 0 ==> m * word >= 0;
      assert m <= -2 ==> m * word + 2 * word <= 0;
      BelowZero(x, word);
    }
  }

  lemma BelowZero(x: int, word: nat)
    requires x < 0 <= x + word
    ensures x % word == x + word
  {
    var d := x / word;
    assert x == d * word + x % word;
    assert d >= 0 ==> d * word >= 0;
    assert d <= -2 ==> d * word + 2 * word <= 0;
  }

  lemma WrapIncrement(k: nat, word: nat)
    requires 0 < word
    ensures (k % word + 1) % word == (k + 1) % word
  {
    var q := k / word;
    assert k == q * word + k % word;
    if k % word + 1 < word {
      Quotient(k + 1, word, q, k % word + 1);
    } else {
      assert k + 1 == (q + 1) * word;
      Quotient(k + 1, word, q + 1, 0);
    }
  }

  lemma CellsDiffer(j: nat, k: nat, sz: nat)
    requires 0 < sz && j < k < j + sz
    ensures j % sz != k % sz
  {
    WrapKeepsDistance(j, k, sz);
  }

  // ----- Every run is first-in first-out when the capacity divides the word

  lemma StoreKeeps(s: Sys, word: nat, b: byte)
    requires Inv(s, word) && s.producer == Room(b)
    ensures Inv(Next(s, word, Store), word)
    ensures Next(s, word, Store).ring.data[s.ring.widx % |s.ring.data|] == b
  {
    var a, sz := |s.accepted|, |s.ring.data|;
    WrapKeepsCell(a, word, sz);
    var t := Next(s, word, Store);
    forall k | Freed(s) <= k < a
      ensures t.ring.data[k % sz] == s.accepted[k]
    {
      CellsDiffer(k, a, sz);
    }
  }

  lemma PublishKeeps(s: Sys, word: nat)
    requires Inv(s, word) && s.producer.Stored?
    ensures Inv(Next(s, word, Publish), word)
  {
    var a, sz := |s.accepted|, |s.ring.data|;
    WrapKeepsCell(a, word, sz);
    WrapIncrement(a, word);
  }

  lemma LoadKeeps(s: Sys, word: nat)
    requires Inv(s, word) && s.consumer.Ready?
    ensures Inv(Next(s, word, Load), word)
  {
    var r := |s.returned|;
    WrapKeepsCell(r, word, |s.ring.data|);
    assert s.ring.data[r % |s.ring.data|] == s.accepted[r];
    assert s.accepted[..r + 1] == s.accepted[..r] + [s.accepted[r]];
  }

  lemma ReleaseKeeps(s: Sys, word: nat)
    requires Inv(s, word) && s.consumer.Loaded?
    ensures Inv(Next(s, word, Release), word)
  {
    WrapIncrement(Freed(s), word);
  }

  lemma StepKeeps(s: Sys, word: nat, step: Step)
    requires Inv(s, word)
    ensures Inv(Next(s, word, step), word)
  {
    WrapKeepsDistance(Freed(s), |s.accepted|, word);
    match step
    case Store => if s.producer.Room? { StoreKeeps(s, word, s.producer.b); }
    case Publish => if s.producer.Stored? { PublishKeeps(s, word); }
    case Load => if s.consumer.Ready? { LoadKeeps(s, word); }
    case Release => if s.consumer.Loaded? { ReleaseKeeps(s, word); }
    case _ =>
  }

  lemma {:induction false} RunKeeps(sz: nat, word: nat, steps: seq<Step>)
    requires 0 < sz < word && word % sz == 0
    ensures Inv(Run(Start(sz), word, steps), word)
  {
    if steps != [] {
      RunKeeps(sz, word, steps[..|steps| - 1]);
      StepKeeps(Run(Start(sz), word, steps[..|steps| - 1]), word, steps[|steps| - 1]);
    }
  }

  /** A ring of capacity 0 refuses everything. */
  lemma {:induction false} EmptyRingIsInert(word: nat, steps: seq<Step>)
    requires 0 < word
    ensures Run(Start(0), word, steps) == Start(0)
  {
    if steps != [] {
      EmptyRingIsInert(word, steps[..|steps| - 1]);
    }
  }

  lemma InvOccupancy(s: Sys, word: nat)
    requires Inv(s, word)
    ensures Unread(s.ring, word) == |s.accepted| - Freed(s)
  {
    WrapKeepsDistance(Freed(s), |s.accepted|, word);
  }

  /** The occupancy the code computes is the true one and never exceeds the capacity, in every run. */
  lemma OccupancyIsExact(sz: nat, word: nat, steps: seq<Step>)
    requires 0 < sz < word && word % sz == 0
    ensures var s := Run(Start(sz), word, steps);
            && Unread(s.ring, word) == |s.accepted| - Freed(s)
            && Unread(s.ring, word) <= |s.ring.data|
  {
    RunKeeps(sz, word, steps);
    InvOccupancy(Run(Start(sz), word, steps), word);
  }

  // ----- A run that loses order when the capacity does not divide the word

  lemma RunSnoc(s: Sys, word: nat, steps: seq<Step>, step: Step)
    requires word > 0
    ensures Run(s, word, steps + [step]) == Next(Run(s, word, steps), word, step)
  {
    assert (steps + [step])[..|steps|] == steps;
  }

  /** State after a whole call of one side with nothing in between. */
  function Wrote(t: Sys, word: nat, b: byte): Sys
    requires word > 0 && |t.ring.data| > 0
  {
    t.(ring := Published(Filled(t.ring, b), word), accepted := t.accepted + [b])
  }

  function Took(t: Sys, word: nat): Sys
    requires word > 0 && |t.ring.data| > 0
  {
    t.(ring := Released(t.ring, word), returned := t.returned + [Oldest(t.ring)])
  }

  lemma WholeWrite(s: Sys, word: nat, steps: seq<Step>, b: byte, t: Sys) returns (more: seq<Step>)
    requires word > 0 && t == Run(s, word, steps)
    requires t.producer.Quiet? && |t.ring.data| > 0 && Unread(t.ring, word) != |t.ring.data|
    ensures Run(s, word, more) == Wrote(t, word, b)
  {
    more := steps + [CheckRoom(b)] + [Store] + [Publish];
    RunSnoc(s, word, steps, CheckRoom(b));
    RunSnoc(s, word, steps + [CheckRoom(b)], Store);
    RunSnoc(s, word, steps + [CheckRoom(b)] + [Store], Publish);
  }

  lemma WholeRead(s: Sys, word: nat, steps: seq<Step>, t: Sys) returns (more: seq<Step>)
    requires word > 0 && t == Run(s, word, steps)
    requires t.consumer.Waiting? && |t.ring.data| > 0 && Unread(t.ring, word) != 0
    ensures Run(s, word, more) == Took(t, word)
  {
    more := steps + [CheckReady] + [Load] + [Release];
    RunSnoc(s, word, steps, CheckReady);
    RunSnoc(s, word, steps + [CheckReady], Load);
    RunSnoc(s, word, steps + [CheckReady] + [Load], Release);
  }

  /** Both sides between calls, both counters at `at`, as many bytes out as in. */
  ghost predicate Drained(s: Sys, sz: nat, at: nat) {
    && s.producer.Quiet? && s.consumer.Waiting?
    && |s.ring.data| == sz
    && s.ring.ridx == s.ring.widx == at == |s.accepted| == |s.returned|
  }

  lemma DrainedStep(t: Sys, sz: nat, word: nat, at: nat)
    requires 0 < sz < word && at + 1 < word && Drained(t, sz, at)
    ensures Unread(t.ring, word) == 0
    ensures Unread(Wrote(t, word, 0).ring, word) == 1
    ensures Drained(Took(Wrote(t, word, 0), word), sz, at + 1)
  {
    Turn(0, word);
    Turn(1, word);
    Turn(at + 1, word);
  }

  lemma {:induction false} ReachDrained(sz: nat, word: nat, n: nat) returns (steps: seq<Step>)
    requires 0 < sz < word && n < word
    ensures Drained(Run(Start(sz), word, steps), sz, n)
  {
    steps := [];
    if n > 0 {
      steps := ReachDrained(sz, word, n - 1);
      var t := Run(Start(sz), word, steps);
      DrainedStep(t, sz, word, n - 1);
      steps := WholeWrite(Start(sz), word, steps, 0, t);
      steps := WholeRead(Start(sz), word, steps, Wrote(t, word, 0));
    }
  }

  /** `j` bytes in the ring across the wrap, the first of them a 1 in cell 0. */
  ghost predicate Straddling(s: Sys, sz: nat, word: nat, at: nat, j: nat) {
    && s.producer.Quiet? && s.consumer.Waiting?
    && |s.ring.data| == sz > 0
    && s.ring.ridx == at == |s.returned| && s.ring.widx == (if at + j < word then at + j else at + j - word)
    && |s.accepted| == at + j && at < |s.accepted| && s.accepted[at] == 1
    && s.ring.data[0] == 1
  }

  lemma CellsPastMultiple(at: nat, j: nat, sz: nat)
    requires 0 < sz && at % sz == 0 && j < sz
    ensures (at + j) % sz == j
  {
    assert at == (at / sz) * sz;
    Quotient(at + j, sz, at / sz, j);
  }

  /** Remainders within one turn of 0. */
  lemma Turn(x: int, word: nat)
    requires 0 < word && 0 <= x + word && x <= word
    ensures x % word == if x < 0 then x + word else if x < word then x else 0
  {}

  lemma StraddlingStart(t: Sys, sz: nat, word: nat, at: nat)
    requires 0 < sz < word && at < word && at % sz == 0 && Drained(t, sz, at)
    ensures Unread(t.ring, word) == 0
    ensures Straddling(Wrote(t, word, 1), sz, word, at, 1)
  {}

  lemma StraddlingStep(t: Sys, sz: nat, word: nat, at: nat, j: nat)
    requires 0 < sz < word && at % sz == 0 && 0 < j && at + j < word < at + sz
    requires Straddling(t, sz, word, at, j)
    ensures Unread(t.ring, word) == j
    ensures Straddling(Wrote(t, word, 0), sz, word, at, j + 1)
  {
    CellsPastMultiple(at, j, sz);
    Turn(j, word);
    Turn(at + j + 1, word);
    assert t.ring.widx - t.ring.ridx == j;
    assert t.ring.widx % sz == j;
    assert Filled(t.ring, 0).data[0] == 1;
  }

  lemma {:induction false} ReachStraddling(sz: nat, word: nat, at: nat, j: nat) returns (steps: seq<Step>)
    requires 0 < sz < word && at < word && at % sz == 0 && 0 < j <= word - at < sz
    ensures Straddling(Run(Start(sz), word, steps), sz, word, at, j)
  {
    if j == 1 {
      steps := ReachDrained(sz, word, at);
      var t := Run(Start(sz), word, steps);
      StraddlingStart(t, sz, word, at);
      steps := WholeWrite(Start(sz), word, steps, 1, t);
    } else {
      steps := ReachStraddling(sz, word, at, j - 1);
      var t := Run(Start(sz), word, steps);
      StraddlingStep(t, sz, word, at, j - 1);
      steps := WholeWrite(Start(sz), word, steps, 0, t);
    }
  }

  /** Writing on across the wrap lands on cell 0 again while the byte there is still unread. */
  lemma StraddlingBreaks(t: Sys, sz: nat, word: nat, at: nat)
    requires 0 < sz < word && at % sz == 0 && at < word < at + sz
    requires Straddling(t, sz, word, at, word - at)
    ensures Unread(t.ring, word) == word - at
    ensures var w := Wrote(t, word, 2);
            && Unread(w.ring, word) == word - at + 1
            && !(Took(w, word).returned <= Took(w, word).accepted)
  {
    Turn(0 - at, word);
    Turn(1, word);
    Turn(1 - at, word);
    Turn(0, sz);
    var w := Wrote(t, word, 2);
    assert w.accepted[at] == 1 && Took(w, word).returned[at] == 2;
  }

  lemma LosesOrder(sz: nat, word: nat) returns (steps: seq<Step>)
    requires 0 < sz < word && word % sz != 0
    ensures var s := Run(Start(sz), word, steps); !(s.returned <= s.accepted)
  {
    var past := word % sz;
    var at := word - past;
    assert word == (word / sz) * sz + past;
    Quotient(at, sz, word / sz, 0);
    steps := ReachStraddling(sz, word, at, past);
    var t := Run(Start(sz), word, steps);
    StraddlingBreaks(t, sz, word, at);
    steps := WholeWrite(Start(sz), word, steps, 2, t);
    steps := WholeRead(Start(sz), word, steps, Wrote(t, word, 2));
  }

  /** The ring is first-in first-out in every interleaving exactly when its capacity divides the word, or is 0. */
  lemma FifoExactlyWhenCapacityDividesWord(sz: nat, word: nat)
    requires sz < word
    ensures (forall steps :: var s := Run(Start(sz), word, steps); s.returned <= s.accepted) <==>
            (sz == 0 || word % sz == 0)
  {
    if sz == 0 {
      forall steps
        ensures var s := Run(Start(sz), word, steps); s.returned <= s.accepted
      {
        EmptyRingIsInert(word, steps);
      }
    } else if word % sz == 0 {
      forall steps
        ensures var s := Run(Start(sz), word, steps); s.returned <= s.accepted
      {
        RunKeeps(sz, word, steps);
      }
    } else {
      var steps := LosesOrder(sz, word);
      assert !(Run(Start(sz), word, steps).returned <= Run(Start(sz), word, steps).accepted);
    }
  }
}
