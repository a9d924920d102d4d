/**
 The fixed-size ring buffer. It refines a queue as long as fewer than `size` elements are queued;
 the write that would make them `size` makes the buffer look empty instead.
 */
module Fifo {
  import opened Common

  const TWO_TO_THE_32: nat := 0x1_0000_0000

  type u32 = x: int | 0 <= x < TWO_TO_THE_32

  /** The elements from one position up to another, around the end of the buffer if need be. */
  function Window<T>(b: seq<T>, from: nat, to: nat): seq<T>
    requires from < |b| && to < |b|
  {
    if from <= to then b[from..to] else b[from..] + b[..to]
  }

  /** The position after this one, around the end of the buffer if need be. */
  function Successor(size: nat, at: nat): nat {
    if at + 1 == size then 0 else at + 1
  }

  lemma WindowAfterRead<T>(b: seq<T>, from: nat, to: nat)
    requires from < |b| && to < |b|
    ensures from == to <==> Window(b, from, to) == []
    ensures from != to ==> Window(b, from, to)[0] == b[from]
    ensures from != to ==> Window(b, Successor(|b|, from), to) == Window(b, from, to)[1..]
  {
  }

  lemma WindowAfterWrite<T>(b: seq<T>, from: nat, to: nat, t: T)
    requires from < |b| && to < |b|
    ensures Window(b[to := t], from, Successor(|b|, to)) ==
      if |Window(b, from, to)| + 1 < |b| then Window(b, from, to) + [t] else []
  {
  }

  class Ring<T(0)> {
    const size: u32
    const buffer: array<T>
    var readAt: u32
    var writeAt: u32
    var used: u32
    var maxEverUsed: u32

    ghost predicate Valid()
      reads this
    {
      buffer.Length == size && readAt < size && writeAt < size
    }

    ghost function Contents(): seq<T>
      reads this, buffer
      requires Valid()
    {
      Window(buffer[..], readAt, writeAt)
    }

    ghost function View(): State<T>
      reads this, buffer
      requires Valid()
    {
      State(Contents(), used, maxEverUsed)
    }

    constructor (size: u32)
      requires size > 0
      ensures Valid() && fresh(buffer) && this.size == size
      ensures View() == State([], 0, 0)
    {
      this.size := size;
      buffer := new T[size];
      readAt, writeAt, used, maxEverUsed := 0, 0, 0, 0;
    }

    method Read() returns (t: Option<T>)
      requires Valid()
      modifies this
      ensures Valid()
      ensures View() == Next(size, old(View()), Op<T>.Read)
      ensures t == if old(Contents()) == [] then None else Some(old(Contents())[0])
    {
      hide Window;
      WindowAfterRead(buffer[..], readAt, writeAt);
      if writeAt == readAt {
        return None;
      }
      t := Some(buffer[readAt]);
      readAt := readAt + 1;
      if readAt == size {
        readAt := 0;
      }
      used := (used - 1) % TWO_TO_THE_32;
    }

    /** Always answers false, whether or not anything was lost. */
    method Write(t: T) returns (ok: bool)
      requires Valid()
      modifies this, buffer
      ensures Valid() && !ok
      ensures View() == Next(size, old(View()), Op.Write(t))
    {
      hide Window;
      WindowAfterWrite(buffer[..], readAt, writeAt, t);
      ghost var b := buffer[..];
      buffer[writeAt] := t;
      assert buffer[..] == b[writeAt := t];
      writeAt := writeAt + 1;
      if writeAt == size {
        writeAt := 0;
      }
      used := (used + 1) % TWO_TO_THE_32;
      maxEverUsed := Max(used, maxEverUsed);
      return false;
    }
  }

  // ---------- Runs ----------

  datatype Op<T> = Write(t: T) | Read

  datatype State<T> = State(items: seq<T>, used: u32, maxEverUsed: u32)

  /** One operation on the ring: a write that fills the last slot empties the ring. */
  function Next<T>(size: u32, s: State<T>, op: Op<T>): State<T> {
    match op
    case Write(t) =>
      var used := (s.used + 1) % TWO_TO_THE_32;
      State(if |s.items| + 1 < size then s.items + [t] else [], used, Max(used, s.maxEverUsed))
    case Read =>
      if s.items == [] then s else State(s.items[1..], (s.used - 1) % TWO_TO_THE_32, s.maxEverUsed)
  }

  function After<T>(size: u32, run: seq<Op<T>>): State<T> {
    if run == [] then State([], 0, 0) else Next(size, After(size, Front(run)), Last(run))
  }

  /** The unbounded queue the ring stands for. */
  function Queue<T>(run: seq<Op<T>>): seq<T> {
    if run == [] then []
    else
      var q := Queue(Front(run));
      match Last(run)
      case Write(t) => q + [t]
      case Read => if q == [] then [] else q[1..]
  }

  /** The greatest number of elements the queue ever held. */
  function Peak<T>(run: seq<Op<T>>): nat {
    if run == [] then 0 else Max(|Queue(run)|, Peak(Front(run)))
  }

  /** While fewer than `size` elements are queued the ring is the queue, counts it, and knows its peak. */
  lemma {:induction false} RefinesQueue<T>(size: u32, run: seq<Op<T>>)
    requires Peak(run) < size
    ensures After(size, run) == State(Queue(run), |Queue(run)|, Peak(run))
  {
    if run != [] {
      PeakBounds(run);
      PeakBounds(Front(run));
      RefinesQueue(size, Front(run));
      var q := Queue(Front(run));
      StepRefines(size, q, Peak(Front(run)), Last(run));
    }
  }

  lemma StepRefines<T>(size: u32, q: seq<T>, peak: nat, op: Op<T>)
    requires |q| <= peak < size && (op.Write? ==> |q| + 1 < size)
    ensures Next(size, State(q, |q|, peak), op) ==
      match op
      case Write(t) => State(q + [t], |q| + 1, Max(|q| + 1, peak))
      case Read => if q == [] then State(q, 0, peak) else State(q[1..], |q| - 1, peak)
  {
  }

  lemma {:induction false} PeakBounds<T>(run: seq<Op<T>>)
    ensures |Queue(run)| <= Peak(run)
    ensures run != [] ==> Peak(Front(run)) <= Peak(run)
  {
  }

  /** The ring agrees with the queue after every step of a run exactly when the queue stays below `size`. */
  lemma {:induction false} RefinesQueueIff<T>(size: u32, run: seq<Op<T>>)
    requires size > 0
    ensures (forall n :: 0 <= n <= |run| ==> After(size, run[..n]).items == Queue(run[..n])) <==> Peak(run) < size
  {
    assert run[..|run|] == run;
    if run != [] {
      var before := Front(run);
      RefinesQueueIff(size, before);
      assert forall n :: 0 <= n <= |before| ==> before[..n] == run[..n];
      if Peak(before) < size {
        RefinesQueue(size, before);
      }
      if Peak(run) < size {
        RefinesQueue(size, run);
      }
    }
  }

  /** The overflowing write: every queued element becomes unreadable although `size` of them are counted. */
  lemma OverflowLosesAll<T>(size: u32, run: seq<Op<T>>, t: T)
    requires size > 0 && Peak(run) < size && |Queue(run)| == size - 1
    ensures After(size, run + [Write(t)]) == State([], size, size)
  {
    hide Next, Queue, Peak;
    FrontOfAppend(run, Write(t));
    RefinesQueue(size, run);
    PeakBounds(run);
    FillingWrite(size, Queue(run), Peak(run), t);
  }

  lemma FillingWrite<T>(size: u32, q: seq<T>, peak: nat, t: T)
    requires size > 0 && |q| == peak == size - 1
    ensures Next(size, State(q, peak, peak), Write(t)) == State([], size, size)
  {
  }
}
