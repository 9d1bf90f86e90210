/**
 * Driving a consumer of frames from a byte stream. The consumer is any function that takes its own state and a
 * finished frame and gives its next state and whether the caller gets control back.
 */
module Feeder {
  import opened Bytes
  import opened Frames
  import opened Reader

  type Consumer<!A> = (A, FrameState) -> (A, bool)

  /** Where a run over the buffered bytes ends: reader, consumer, unread bytes, and whether the consumer halted it. */
  datatype Outcome<A> = Outcome(frame: FrameState, state: A, rest: seq<byte>, halted: bool)

  function Weight(s: FrameState, buf: seq<byte>): nat {
    2 * |buf| + if s.AtHeader? then 0 else 1
  }

  /** Every frame that the reader finishes uses up bytes, or ends the one under way. */
  lemma {:induction false} FinishingDescends(s: FrameState, buf: seq<byte>, limit: nat)
    requires Run(s, buf, limit).0.Done()
    ensures Weight(AtHeader, Run(s, buf, limit).1) < Weight(s, buf)
  {
    RunProgress(s, buf, limit);
  }

  function Feed<A>(h: Consumer<A>, limit: nat, s: FrameState, a: A, buf: seq<byte>): Outcome<A>
    decreases Weight(s, buf)
  {
    if buf == [] then Outcome(s, a, [], false)
    else
      var (t, rest) := Run(s, buf, limit);
      if !t.Done() then Outcome(t, a, rest, false)
      else
        FinishingDescends(s, buf, limit);
        var (b, halt) := h(a, t);
        if halt then Outcome(AtHeader, b, rest, true) else Feed(h, limit, AtHeader, b, rest)
  }

  /** What one run of the reader leads to. */
  function Dispatch<A>(h: Consumer<A>, limit: nat, a: A, t: FrameState, rest: seq<byte>): Outcome<A> {
    if !t.Done() then Outcome(t, a, rest, false)
    else
      var (b, halt) := h(a, t);
      if halt then Outcome(AtHeader, b, rest, true) else Feed(h, limit, AtHeader, b, rest)
  }

  lemma {:induction false} FeedStep<A>(h: Consumer<A>, limit: nat, s: FrameState, a: A, buf: seq<byte>)
    requires buf != []
    ensures var (t, rest) := Run(s, buf, limit); Feed(h, limit, s, a, buf) == Dispatch(h, limit, a, t, rest)
  {
  }

  /** A reader that waits goes on as if it had never stopped. */
  lemma {:induction false} ResumeWaiting<A>(h: Consumer<A>, limit: nat, s: FrameState, a: A, x: seq<byte>, y: seq<byte>)
    requires x != [] && !Run(s, x, limit).0.Done()
    ensures var (t, rest) := Run(s, x, limit); Feed(h, limit, s, a, x + y) == Feed(h, limit, t, a, rest + y)
  {
    var (t, rest) := Run(s, x, limit);
    RunSplit(s, x, y, limit);
    RunProgress(s, x, limit);
    FeedStep(h, limit, s, a, x + y);
    if rest + y != [] {
      FeedStep(h, limit, t, a, rest + y);
    }
  }

  /** Segmentation independence: what arrives later is treated as if it had been there from the start. */
  lemma {:induction false} FeedSplit<A>(h: Consumer<A>, limit: nat, s: FrameState, a: A, x: seq<byte>, y: seq<byte>)
    ensures var o := Feed(h, limit, s, a, x);
      Feed(h, limit, s, a, x + y)
      == if o.halted then o.(rest := o.rest + y) else Feed(h, limit, o.frame, o.state, o.rest + y)
    decreases Weight(s, x)
  {
    if x == [] {
      assert x + y == y && [] + y == y;
    } else {
      var (t, rest) := Run(s, x, limit);
      FeedStep(h, limit, s, a, x);
      if !t.Done() {
        ResumeWaiting(h, limit, s, a, x, y);
      } else {
        RunSplit(s, x, y, limit);
        assert Run(s, x + y, limit) == (t, rest + y);
        FeedStep(h, limit, s, a, x + y);
        FinishingDescends(s, x, limit);
        FeedSplit(h, limit, AtHeader, h(a, t).0, rest, y);
      }
    }
  }

  /** A reader that stops without being halted holds less than the current field needs. */
  lemma {:induction false} FeedExhausts<A>(h: Consumer<A>, limit: nat, s: FrameState, a: A, buf: seq<byte>)
    requires buf == [] ==> !s.Done() && Need(s, limit) > 0
    ensures var o := Feed(h, limit, s, a, buf);
      !o.halted ==> !o.frame.Done() && |o.rest| < Need(o.frame, limit)
    decreases Weight(s, buf)
  {
    if buf != [] {
      RunProgress(s, buf, limit);
      var (t, rest) := Run(s, buf, limit);
      if t.Done() {
        FinishingDescends(s, buf, limit);
        FeedExhausts(h, limit, AtHeader, h(a, t).0, rest);
      }
    }
  }

  /** A halted run has used up bytes, or ended the frame under way; so calls that are repeated while bytes are left end. */
  lemma {:induction false} FeedDescends<A>(h: Consumer<A>, limit: nat, s: FrameState, a: A, buf: seq<byte>)
    ensures var o := Feed(h, limit, s, a, buf);
      o.halted ==> Weight(o.frame, o.rest) < Weight(s, buf) && (Need(s, limit) > 0 ==> |o.rest| < |buf|)
    decreases Weight(s, buf)
  {
    if buf != [] {
      RunProgress(s, buf, limit);
      var (t, rest) := Run(s, buf, limit);
      if t.Done() {
        FinishingDescends(s, buf, limit);
        FeedDescends(h, limit, AtHeader, h(a, t).0, rest);
      }
    }
  }

  /** What every frame preserves, every byte stream preserves. */
  lemma {:induction false} FeedPreserves<A>(h: Consumer<A>, inv: A -> bool, limit: nat, s: FrameState, a: A, buf: seq<byte>)
    requires forall b: A, t: FrameState :: inv(b) && t.Done() && Sound(t) ==> inv(h(b, t).0)
    requires inv(a) && Sound(s)
    ensures var o := Feed(h, limit, s, a, buf);
      inv(o.state) && Sound(o.frame) && (o.halted ==> o.frame == AtHeader)
    decreases Weight(s, buf)
  {
    if buf != [] {
      var (t, rest) := Run(s, buf, limit);
      RunSound(s, buf, limit);
      if t.Done() {
        FinishingDescends(s, buf, limit);
        FeedPreserves(h, inv, limit, AtHeader, h(a, t).0, rest);
      }
    }
  }

  /** A consumer that halts exactly in its dead states leaves a live state dead exactly when it halts. */
  lemma {:induction false} FeedHalts<A>(h: Consumer<A>, dead: A -> bool, limit: nat, s: FrameState, a: A, buf: seq<byte>)
    requires forall b: A, t: FrameState :: t.Done() ==> h(b, t).1 == dead(h(b, t).0)
    requires !dead(a)
    ensures var o := Feed(h, limit, s, a, buf); o.halted == dead(o.state)
    decreases Weight(s, buf)
  {
    if buf != [] {
      var (t, rest) := Run(s, buf, limit);
      if t.Done() && !h(a, t).1 {
        FinishingDescends(s, buf, limit);
        FeedHalts(h, dead, limit, AtHeader, h(a, t).0, rest);
      }
    }
  }

  // ----- frame sequences -----

  predicate AllLegal(fs: seq<Frame>, limit: nat) {
    forall i :: 0 <= i < |fs| ==> fs[i].Legal(limit)
  }

  /** The consumer given whole frames: its state and the frames that are left when it halts. */
  function Fold<A>(h: Consumer<A>, a: A, fs: seq<Frame>): (A, seq<Frame>, bool)
    decreases fs
  {
    if fs == [] then (a, [], false)
    else
      var (b, halt) := h(a, Complete(fs[0]));
      if halt then (b, fs[1..], true) else Fold(h, b, fs[1..])
  }

  /** The bytes of a sequence of legal frames have exactly the effect of these frames. */
  lemma {:induction false} FeedFrames<A>(h: Consumer<A>, limit: nat, a: A, fs: seq<Frame>, tail: seq<byte>)
    requires AllLegal(fs, limit)
    decreases fs
    ensures var (b, left, halted) := Fold(h, a, fs);
      Feed(h, limit, AtHeader, a, EncodeAll(fs) + tail)
      == if halted then Outcome(AtHeader, b, EncodeAll(left) + tail, true) else Feed(h, limit, AtHeader, b, tail)
  {
    if fs == [] {
      assert EncodeAll(fs) + tail == tail;
    } else {
      var more := EncodeAll(fs[1..]) + tail;
      assert EncodeAll(fs) + tail == Encode(fs[0]) + more;
      FrameRoundTrip(fs[0], fs[0].key != 0, more, limit);
      FeedFrames(h, limit, h(a, Complete(fs[0])).0, fs[1..], tail);
    }
  }

  lemma {:induction false} FoldConcat<A>(h: Consumer<A>, a: A, fs: seq<Frame>, gs: seq<Frame>)
    ensures var (b, left, halted) := Fold(h, a, fs);
      Fold(h, a, fs + gs) == if halted then (b, left + gs, true) else Fold(h, b, gs)
    decreases fs
  {
    if fs == [] {
      assert fs + gs == gs;
    } else {
      assert (fs + gs)[1..] == fs[1..] + gs;
      FoldConcat(h, h(a, Complete(fs[0])).0, fs[1..], gs);
    }
  }

  lemma {:induction false} FoldOne<A>(h: Consumer<A>, a: A, f: Frame)
    ensures Fold(h, a, [f]) == (h(a, Complete(f)).0, [], h(a, Complete(f)).1)
  {
    assert [f][1..] == [];
  }
}
