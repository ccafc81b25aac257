/** The decision logic of `MessageSplitter.split`: which segments are sent,
    when the dispatcher pauses, and what is left in the caller's chain. The
    transport and the clock are not modelled: a send is an event whose
    success is an input, a pause is an event carrying its length. */
module Dispatch {
  import opened Components
  import opened Segments
  import opened Splitter
  import Delay

  /** What the dispatcher does, in order. */
  datatype Event =
    | Send(index: nat, components: seq<Component>, delivered: bool)  // segment `index` handed to the transport; `delivered`: the call did not raise
    | Sleep(seconds: real)                                             // the typing pause after a send

  /** The caller's component list, which `split` clears and refills in place. */
  class ComponentList {
    var items: seq<Component>

    constructor (items: seq<Component>)
      ensures this.items == items
    {
      this.items := items;
    }
  }

  /** The pause after a segment: `_calc_delay(len(seg.text))`. */
  function PauseAfter(sp: MessageSplitter, seg: Segment): real
  {
    Delay.CalcDelay(sp.minDelay, sp.maxDelay, |seg.Text()|)
  }

  /** One iteration of the send loop: an empty segment is skipped; otherwise
      it is sent, and only a send that succeeds is followed by its pause. */
  function Attempt(sp: MessageSplitter, segs: seq<Segment>, i: nat, delivered: nat -> bool): seq<Event>
    requires i < |segs|
  {
    if segs[i].IsEmpty() then []
    else if delivered(i) then [Send(i, segs[i].components, true), Sleep(PauseAfter(sp, segs[i]))]
    else [Send(i, segs[i].components, false)]
  }

  /** The events of the first `k` iterations. */
  function Attempts(sp: MessageSplitter, segs: seq<Segment>, k: nat, delivered: nat -> bool): seq<Event>
    requires k <= |segs|
  {
    if k == 0 then [] else Attempts(sp, segs, k - 1, delivered) + Attempt(sp, segs, k - 1, delivered)
  }

  /** All events of `split` for the segment list: none for one segment or
      fewer, otherwise the attempts on every segment but the last. */
  function DispatchTrace(sp: MessageSplitter, segs: seq<Segment>, delivered: nat -> bool): seq<Event>
  {
    if |segs| <= 1 then [] else Attempts(sp, segs, |segs| - 1, delivered)
  }

  /** What the caller's chain holds afterwards. */
  function Residual(chain: seq<Component>, segs: seq<Segment>): seq<Component>
  {
    if |segs| <= 1 then chain
    else if segs[|segs| - 1].IsEmpty() then []
    else segs[|segs| - 1].components
  }

  /** `split`: segments the chain; `delivered(i)` says whether sending
      segment `i` returns without raising. With two segments or more, sends every
      segment but the last (skipping empty ones, pausing after each successful
      send, carrying on after a failed one) and leaves the last segment's
      components, or nothing if it is empty, in the caller's chain. */
  method Split(sp: MessageSplitter, chain: ComponentList, delivered: nat -> bool) returns (trace: seq<Event>)
    requires PatternUsable(sp, chain.items)
    modifies chain
    ensures trace == DispatchTrace(sp, SplitChainSpec(sp, old(chain.items)), delivered)
    ensures chain.items == Residual(old(chain.items), SplitChainSpec(sp, old(chain.items)))
  {
    var segments := SplitChain(sp, chain.items);
    trace := SendAllButLast(sp, segments, delivered);
    HandBackLast(chain, segments);
  }

  /** The end of `split`: with two segments or more the caller's chain is
      cleared and refilled with the last segment, unless it is empty. */
  method HandBackLast(chain: ComponentList, segments: seq<Segment>)
    modifies chain
    ensures chain.items == Residual(old(chain.items), segments)
  {
    if |segments| <= 1 {
      return;
    }
    chain.items := [];
    var last := segments[|segments| - 1];
    if !last.IsEmpty() {
      chain.items := chain.items + last.components;
    }
  }

  /** The send loop of `split`: every segment but the last, in order. */
  method SendAllButLast(sp: MessageSplitter, segments: seq<Segment>, delivered: nat -> bool) returns (trace: seq<Event>)
    ensures trace == DispatchTrace(sp, segments, delivered)
  {
    trace := [];
    if |segments| <= 1 {
      return;
    }
    for i := 0 to |segments| - 1
      invariant trace == Attempts(sp, segments, i, delivered)
    {
      assert Attempts(sp, segments, i + 1, delivered) == trace + Attempt(sp, segments, i, delivered);
      var seg := segments[i];
      if seg.IsEmpty() {
        continue;
      }
      var ok := delivered(i);
      trace := trace + [Send(i, seg.components, ok)];
      if ok {
        var delay := PauseAfter(sp, seg);
        trace := trace + [Sleep(delay)];
      }
    }
  }

  /** Every send names a non-empty segment below `bound`, carries that
      segment's components and whether its send returned without raising. */
  predicate SendsAreValid(segs: seq<Segment>, bound: int, delivered: nat -> bool, t: seq<Event>)
  {
    forall j | 0 <= j < |t| && t[j].Send? ::
      t[j].index < bound && t[j].index < |segs| && !segs[t[j].index].IsEmpty()
      && t[j].components == segs[t[j].index].components && t[j].delivered == delivered(t[j].index)
  }

  /** Sends come in strictly increasing segment order. */
  predicate SendsInOrder(t: seq<Event>)
  {
    forall j1, j2 | 0 <= j1 < j2 < |t| && t[j1].Send? && t[j2].Send? :: t[j1].index < t[j2].index
  }

  /** A successful send is followed at once by its segment's pause. */
  predicate DeliveredThenPause(sp: MessageSplitter, segs: seq<Segment>, t: seq<Event>)
  {
    forall j | 0 <= j < |t| && t[j].Send? && t[j].delivered ::
      j + 1 < |t| && t[j].index < |segs| && t[j + 1] == Sleep(PauseAfter(sp, segs[t[j].index]))
  }

  /** A failed send is followed by the next send or by nothing. */
  predicate FailedThenNoPause(t: seq<Event>)
  {
    forall j | 0 <= j < |t| && t[j].Send? && !t[j].delivered :: j + 1 == |t| || t[j + 1].Send?
  }

  /** Every pause comes straight after a successful send. */
  predicate PauseOnlyAfterDelivery(t: seq<Event>)
  {
    forall j | 0 <= j < |t| && t[j].Sleep? :: j > 0 && t[j - 1].Send? && t[j - 1].delivered
  }

  /** Segment `i` is sent somewhere in the trace. */
  predicate Sent(t: seq<Event>, i: nat)
  {
    exists j | 0 <= j < |t| :: t[j].Send? && t[j].index == i
  }

  predicate PausesFollowDeliveries(sp: MessageSplitter, segs: seq<Segment>, t: seq<Event>)
  {
    DeliveredThenPause(sp, segs, t) && FailedThenNoPause(t) && PauseOnlyAfterDelivery(t)
  }

  /** The events of one iteration: at most one send, of segment `i`, first. */
  lemma AttemptShape(sp: MessageSplitter, segs: seq<Segment>, i: nat, delivered: nat -> bool)
    requires i < |segs|
    ensures var a := Attempt(sp, segs, i, delivered);
      SendsAreValid(segs, i + 1, delivered, a) && PausesFollowDeliveries(sp, segs, a)
      && (forall j | 0 <= j < |a| && a[j].Send? :: j == 0 && a[j].index == i)
      && (a == [] || a[0].Send?)
  {
  }

  lemma {:induction false} AttemptsValid(sp: MessageSplitter, segs: seq<Segment>, k: nat, delivered: nat -> bool)
    requires k <= |segs|
    ensures SendsAreValid(segs, k, delivered, Attempts(sp, segs, k, delivered))
  {
    if k > 0 {
      AttemptsValid(sp, segs, k - 1, delivered);
      AttemptShape(sp, segs, k - 1, delivered);
      SendsAreValidConcat(segs, k - 1, k, delivered, Attempts(sp, segs, k - 1, delivered), Attempt(sp, segs, k - 1, delivered));
    }
  }

  lemma {:induction false} AttemptsInOrder(sp: MessageSplitter, segs: seq<Segment>, k: nat, delivered: nat -> bool)
    requires k <= |segs|
    ensures SendsInOrder(Attempts(sp, segs, k, delivered))
  {
    if k > 0 {
      AttemptsInOrder(sp, segs, k - 1, delivered);
      AttemptsValid(sp, segs, k - 1, delivered);
      AttemptShape(sp, segs, k - 1, delivered);
      SendsInOrderConcat(segs, k - 1, delivered, Attempts(sp, segs, k - 1, delivered), Attempt(sp, segs, k - 1, delivered));
    }
  }

  lemma SendsAreValidConcat(segs: seq<Segment>, bound1: int, bound2: int, delivered: nat -> bool, a: seq<Event>, b: seq<Event>)
    requires bound1 <= bound2
    requires SendsAreValid(segs, bound1, delivered, a) && SendsAreValid(segs, bound2, delivered, b)
    ensures SendsAreValid(segs, bound2, delivered, a + b)
  {
    var t := a + b;
    forall j | 0 <= j < |t| && t[j].Send?
      ensures t[j].index < bound2 && t[j].index < |segs| && !segs[t[j].index].IsEmpty()
        && t[j].components == segs[t[j].index].components && t[j].delivered == delivered(t[j].index)
    {
      if j < |a| { assert t[j] == a[j]; } else { assert t[j] == b[j - |a|]; }
    }
  }

  /** Sends below `m` followed by in-order sends from `m` on are in order. */
  lemma SendsInOrderConcat(segs: seq<Segment>, m: int, delivered: nat -> bool, a: seq<Event>, b: seq<Event>)
    requires SendsInOrder(a) && SendsInOrder(b) && SendsAreValid(segs, m, delivered, a)
    requires forall j | 0 <= j < |b| && b[j].Send? :: m <= b[j].index
    ensures SendsInOrder(a + b)
  {
    var t := a + b;
    forall j1, j2 | 0 <= j1 < j2 < |t| && t[j1].Send? && t[j2].Send?
      ensures t[j1].index < t[j2].index
    {
      if j2 < |a| {
        assert t[j1] == a[j1] && t[j2] == a[j2];
      } else if j1 < |a| {
        assert t[j1] == a[j1] && t[j2] == b[j2 - |a|];
      } else {
        assert t[j1] == b[j1 - |a|] && t[j2] == b[j2 - |a|];
      }
    }
  }

  lemma DeliveredThenPauseConcat(sp: MessageSplitter, segs: seq<Segment>, a: seq<Event>, b: seq<Event>)
    requires DeliveredThenPause(sp, segs, a) && DeliveredThenPause(sp, segs, b)
    ensures DeliveredThenPause(sp, segs, a + b)
  {
    var t := a + b;
    forall j | 0 <= j < |t| && t[j].Send? && t[j].delivered
      ensures j + 1 < |t| && t[j].index < |segs| && t[j + 1] == Sleep(PauseAfter(sp, segs[t[j].index]))
    {
      if j < |a| { assert t[j] == a[j] && t[j + 1] == a[j + 1]; }
      else { assert t[j] == b[j - |a|] && t[j + 1] == b[j + 1 - |a|]; }
    }
  }

  lemma FailedThenNoPauseConcat(a: seq<Event>, b: seq<Event>)
    requires FailedThenNoPause(a) && FailedThenNoPause(b)
    requires b == [] || b[0].Send?
    ensures FailedThenNoPause(a + b)
  {
    var t := a + b;
    forall j | 0 <= j < |t| && t[j].Send? && !t[j].delivered
      ensures j + 1 == |t| || t[j + 1].Send?
    {
      if j + 1 < |a| { assert t[j] == a[j] && t[j + 1] == a[j + 1]; }
      else if j + 1 == |a| { assert t[j] == a[j]; if b != [] { assert t[j + 1] == b[0]; } }
      else { assert t[j] == b[j - |a|]; if j + 1 < |t| { assert t[j + 1] == b[j + 1 - |a|]; } }
    }
  }

  lemma PauseOnlyAfterDeliveryConcat(a: seq<Event>, b: seq<Event>)
    requires PauseOnlyAfterDelivery(a) && PauseOnlyAfterDelivery(b)
    requires b == [] || b[0].Send?
    ensures PauseOnlyAfterDelivery(a + b)
  {
    var t := a + b;
    forall j | 0 <= j < |t| && t[j].Sleep?
      ensures j > 0 && t[j - 1].Send? && t[j - 1].delivered
    {
      if j < |a| { assert t[j] == a[j] && t[j - 1] == a[j - 1]; }
      else if j > |a| { assert t[j] == b[j - |a|] && t[j - 1] == b[j - 1 - |a|]; }
    }
  }

  lemma {:induction false} AttemptsDeliveredThenPause(sp: MessageSplitter, segs: seq<Segment>, k: nat, delivered: nat -> bool)
    requires k <= |segs|
    ensures DeliveredThenPause(sp, segs, Attempts(sp, segs, k, delivered))
  {
    if k > 0 {
      AttemptsDeliveredThenPause(sp, segs, k - 1, delivered);
      AttemptShape(sp, segs, k - 1, delivered);
      DeliveredThenPauseConcat(sp, segs, Attempts(sp, segs, k - 1, delivered), Attempt(sp, segs, k - 1, delivered));
    }
  }

  lemma {:induction false} AttemptsFailedThenNoPause(sp: MessageSplitter, segs: seq<Segment>, k: nat, delivered: nat -> bool)
    requires k <= |segs|
    ensures FailedThenNoPause(Attempts(sp, segs, k, delivered))
  {
    if k > 0 {
      AttemptsFailedThenNoPause(sp, segs, k - 1, delivered);
      AttemptShape(sp, segs, k - 1, delivered);
      FailedThenNoPauseConcat(Attempts(sp, segs, k - 1, delivered), Attempt(sp, segs, k - 1, delivered));
    }
  }

  lemma {:induction false} AttemptsPauseOnlyAfterDelivery(sp: MessageSplitter, segs: seq<Segment>, k: nat, delivered: nat -> bool)
    requires k <= |segs|
    ensures PauseOnlyAfterDelivery(Attempts(sp, segs, k, delivered))
  {
    if k > 0 {
      AttemptsPauseOnlyAfterDelivery(sp, segs, k - 1, delivered);
      AttemptShape(sp, segs, k - 1, delivered);
      PauseOnlyAfterDeliveryConcat(Attempts(sp, segs, k - 1, delivered), Attempt(sp, segs, k - 1, delivered));
    }
  }

  /** Every non-empty segment below `k` is attempted. */
  lemma {:induction false} AttemptsCover(sp: MessageSplitter, segs: seq<Segment>, k: nat, delivered: nat -> bool, i: nat)
    requires i < k <= |segs|
    requires !segs[i].IsEmpty()
    ensures Sent(Attempts(sp, segs, k, delivered), i)
  {
    var prev := Attempts(sp, segs, k - 1, delivered);
    var step := Attempt(sp, segs, k - 1, delivered);
    assert Attempts(sp, segs, k, delivered) == prev + step;
    if i < k - 1 {
      AttemptsCover(sp, segs, k - 1, delivered, i);
    } else {
      assert step[0] == Send(i, segs[i].components, delivered(i));
    }
    SentInConcat(prev, step, i);
  }

  /** A send of segment `i` in either part is a send of it in the whole. */
  lemma SentInConcat(a: seq<Event>, b: seq<Event>, i: nat)
    requires Sent(a, i) || Sent(b, i)
    ensures Sent(a + b, i)
  {
    var t := a + b;
    if Sent(a, i) {
      var j :| 0 <= j < |a| && a[j].Send? && a[j].index == i;
      assert t[j] == a[j];
    } else {
      var j :| 0 <= j < |b| && b[j].Send? && b[j].index == i;
      assert t[|a| + j] == b[j];
    }
  }

  /** The dispatch decisions: with at most one segment nothing is sent;
      otherwise every send is of a non-empty segment before the last, in
      order, each such segment is attempted, a pause of `_calc_delay` follows
      each successful send and only those, and a failure does not stop the
      loop. */
  lemma DispatchTraceShape(sp: MessageSplitter, segs: seq<Segment>, delivered: nat -> bool)
    ensures var t := DispatchTrace(sp, segs, delivered);
      (|segs| <= 1 ==> t == [])
      && SendsAreValid(segs, |segs| - 1, delivered, t) && SendsInOrder(t) && PausesFollowDeliveries(sp, segs, t)
      && forall i | 0 <= i < |segs| - 1 && !segs[i].IsEmpty() :: Sent(t, i)
  {
    if |segs| > 1 {
      var t := DispatchTrace(sp, segs, delivered);
      assert t == Attempts(sp, segs, |segs| - 1, delivered);
      AttemptsValid(sp, segs, |segs| - 1, delivered);
      AttemptsInOrder(sp, segs, |segs| - 1, delivered);
      AttemptsDeliveredThenPause(sp, segs, |segs| - 1, delivered);
      AttemptsFailedThenNoPause(sp, segs, |segs| - 1, delivered);
      AttemptsPauseOnlyAfterDelivery(sp, segs, |segs| - 1, delivered);
      forall i | 0 <= i < |segs| - 1 && !segs[i].IsEmpty()
        ensures Sent(t, i)
      {
        AttemptsCover(sp, segs, |segs| - 1, delivered, i);
      }
    }
  }
}
