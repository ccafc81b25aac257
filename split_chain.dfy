/** `MessageSplitter.split_chain`: one pass over a message chain that groups
    its components into segments, carrying the closed segments, the segment
    being built and the binding units waiting for the next segment. */
module Splitter {
  import opened Components
  import opened Segments
  import opened SplitPattern

  /** The configuration a `MessageSplitter` holds once built: the compiled
      delimiter class, `max_count` (0 or less means no cap) and the two
      typing-delay bounds. */
  datatype MessageSplitter = MessageSplitter(pattern: Pattern, maxCount: int, minDelay: real, maxDelay: real)

  /** The units of a segment list, in order. */
  function Flat(segs: seq<Segment>): seq<Component>
  {
    if segs == [] then [] else Flat(segs[..|segs| - 1]) + segs[|segs| - 1].components
  }

  lemma FlatSnoc(segs: seq<Segment>, s: Segment)
    ensures Flat(segs + [s]) == Flat(segs) + s.components
  {
    assert (segs + [s])[..|segs|] == segs;
  }

  /** Replacing the last segment by one with `cs` appended extends the units by `cs`. */
  lemma FlatExtendLast(segs: seq<Segment>, cs: seq<Component>)
    requires |segs| > 0
    ensures Flat(segs[..|segs| - 1] + [segs[|segs| - 1].Extend(cs)]) == Flat(segs) + cs
  {
    var init := segs[..|segs| - 1];
    FlatSnoc(init, segs[|segs| - 1].Extend(cs));
  }

  /** No segment of the list is without components. */
  predicate AllNonEmpty(segs: seq<Segment>)
  {
    forall i | 0 <= i < |segs| :: |segs[i].components| > 0
  }

  /** The list respects `max_count` when a cap is set. */
  predicate WithinCap(segs: seq<Segment>, maxCount: int)
  {
    maxCount > 0 ==> |segs| <= maxCount
  }

  /** `push`: a segment without components is ignored; at the cap its
      components go onto the end of the last segment; otherwise it is added. */
  function Push(segments: seq<Segment>, seg: Segment, maxCount: int): (r: seq<Segment>)
    ensures Flat(r) == Flat(segments) + seg.components
    ensures |r| == |segments| + 1 <==> |seg.components| > 0 && (maxCount <= 0 || |segments| < maxCount)
    ensures |r| == |segments| || |r| == |segments| + 1
  {
    if |seg.components| == 0 then
      assert Flat(segments) + seg.components == Flat(segments);
      segments
    else if maxCount > 0 && |segments| >= maxCount then
      FlatExtendLast(segments, seg.components);
      segments[..|segments| - 1] + [segments[|segments| - 1].Extend(seg.components)]
    else
      FlatSnoc(segments, seg);
      segments + [seg]
  }

  /** A push adds `seg` as a new last segment or merges it into the last one,
      leaves the earlier segments alone, adds no empty segment and never
      takes the list past the cap. */
  lemma PushKeeps(segments: seq<Segment>, seg: Segment, maxCount: int)
    ensures var r := Push(segments, seg, maxCount);
      (|r| == |segments| + 1 ==> r[|segments|] == seg)
      && (|segments| > 0 ==> r[..|segments| - 1] == segments[..|segments| - 1])
      && (AllNonEmpty(segments) ==> AllNonEmpty(r))
      && (WithinCap(segments, maxCount) ==> WithinCap(r, maxCount))
  {
    var r := Push(segments, seg, maxCount);
    if |seg.components| == 0 {
    } else if maxCount > 0 && |segments| >= maxCount {
      var n := |segments|;
      assert r == segments[..n - 1] + [segments[n - 1].Extend(seg.components)];
      assert r[..n - 1] == segments[..n - 1];
      assert |r[n - 1].components| >= |segments[n - 1].components|;
    } else {
      assert r == segments + [seg];
      assert r[..|segments|] == segments;
    }
  }

  /** The three pieces of state `split_chain` carries through its pass. */
  datatype SplitState = SplitState(segments: seq<Segment>, current: Segment, pending: seq<Component>)

  /** The units placed so far: closed segments, then the open one. */
  function Placed(st: SplitState): seq<Component>
  {
    Flat(st.segments) + st.current.components
  }

  /** The state invariants: no closed segment is empty, the cap holds, and
      only binding units wait. */
  predicate Good(st: SplitState, maxCount: int)
  {
    AllNonEmpty(st.segments) && WithinCap(st.segments, maxCount)
    && forall i | 0 <= i < |st.pending| :: IsBinding(st.pending[i])
  }

  /** `flush`: a non-empty open segment is pushed and a new one started. */
  function Flush(st: SplitState, maxCount: int): SplitState
  {
    if |st.current.components| > 0 then SplitState(Push(st.segments, st.current, maxCount), Segment([]), st.pending)
    else st
  }

  /** Moving the waiting binding units onto the open segment. */
  function Drain(st: SplitState): SplitState
  {
    if st.pending != [] then SplitState(st.segments, st.current.Extend(st.pending), []) else st
  }

  /** One part of a split Plain text: every non-empty part becomes its own
      Plain after the waiting binding units; a delimiter run then closes the
      open segment. */
  function PartStep(sp: MessageSplitter, st: SplitState, part: string): SplitState
  {
    if part == "" then st
    else
      var d := Drain(st);
      var appended := d.(current := d.current.Append(Plain(part)));
      if FullMatch(sp.pattern, part) then Flush(appended, sp.maxCount) else appended
  }

  function PartsStep(sp: MessageSplitter, st: SplitState, parts: seq<string>): SplitState
  {
    if parts == [] then st else PartStep(sp, PartsStep(sp, st, parts[..|parts| - 1]), parts[|parts| - 1])
  }

  /** An Image or Face joins the open segment, else the last closed one, else
      starts a segment of its own; it never closes a segment. */
  function Attach(st: SplitState, c: Component, maxCount: int): SplitState
  {
    if |st.current.components| > 0 then st.(current := st.current.Append(c))
    else if |st.segments| > 0 then
      st.(segments := st.segments[|st.segments| - 1 := st.segments[|st.segments| - 1].Append(c)])
    else st.(segments := Push(st.segments, Segment([c]), maxCount))
  }

  /** Any other component closes the open segment, emits the waiting binding
      units as a segment of their own, then stands alone. */
  function Isolate(st: SplitState, c: Component, maxCount: int): SplitState
  {
    var f := Flush(st, maxCount);
    var g := if f.pending != [] then SplitState(Push(f.segments, Segment(f.pending), maxCount), f.current, []) else f;
    g.(segments := Push(g.segments, Segment([c]), maxCount))
  }

  /** The rule `split_chain` applies to one component. */
  function Step(sp: MessageSplitter, st: SplitState, c: Component): SplitState
  {
    match c
    case At(_) => st.(pending := st.pending + [c])
    case Reply(_) => st.(pending := st.pending + [c])
    case Plain(text) => if text == "" then st else PartsStep(sp, st, SplitParts(sp.pattern, text))
    case Image(_) => Attach(st, c, sp.maxCount)
    case Face(_) => Attach(st, c, sp.maxCount)
    case Other(_) => Isolate(st, c, sp.maxCount)
  }

  /** The state after the pass over `cs`. */
  function Run(sp: MessageSplitter, cs: seq<Component>): SplitState
  {
    if cs == [] then SplitState([], Segment([]), [])
    else Step(sp, Run(sp, cs[..|cs| - 1]), cs[|cs| - 1])
  }

  /** The segments before the trim pass: the open segment is pushed at the end
      and whatever binding units still wait are left behind. */
  function RawSegments(sp: MessageSplitter, chain: seq<Component>): seq<Segment>
  {
    var st := Run(sp, chain);
    if |st.current.components| > 0 then Push(st.segments, st.current, sp.maxCount) else st.segments
  }

  /** The trim pass over every segment. */
  function StripAll(segs: seq<Segment>): (r: seq<Segment>)
  {
    seq(|segs|, i requires 0 <= i < |segs| => Segment(StripTail(segs[i].components)))
  }

  /** What `split_chain` returns. */
  function SplitChainSpec(sp: MessageSplitter, chain: seq<Component>): seq<Segment>
  {
    StripAll(RawSegments(sp, chain))
  }

  /** The source raises on "[]+" the first time a non-empty text reaches
      `re.split`; a chain without text never compiles the pattern. */
  predicate PatternUsable(sp: MessageSplitter, chain: seq<Component>)
  {
    Compiles(sp.pattern) || forall i | 0 <= i < |chain| :: TextOf(chain[i]) == ""
  }

  /** `split_chain`: the pass over the chain, then the trim pass. */
  method SplitChain(sp: MessageSplitter, chain: seq<Component>) returns (r: seq<Segment>)
    requires PatternUsable(sp, chain)
    ensures r == SplitChainSpec(sp, chain)
    ensures AllNonEmpty(r) && WithinCap(r, sp.maxCount)
  {
    var segments: seq<Segment> := [];
    var current := Segment([]);
    var pending: seq<Component> := [];

    for i := 0 to |chain|
      invariant SplitState(segments, current, pending) == Run(sp, chain[..i])
    {
      assert chain[..i + 1][..i] == chain[..i];
      ghost var st := SplitState(segments, current, pending);
      assert Run(sp, chain[..i + 1]) == Step(sp, st, chain[i]);
      var comp := chain[i];

      if comp.Reply? || comp.At? {
        pending := pending + [comp];
        continue;
      }

      if comp.Plain? {
        var text := comp.text;
        if text == "" {
          continue;
        }
        segments, current, pending := SplitText(sp, segments, current, pending, text);
        continue;
      }

      if comp.Image? || comp.Face? {
        if |current.components| > 0 {
          current := current.Append(comp);
        } else if |segments| > 0 {
          segments := segments[|segments| - 1 := segments[|segments| - 1].Append(comp)];
        } else {
          segments := Push(segments, Segment([comp]), sp.maxCount);
        }
        continue;
      }

      if |current.components| > 0 {
        segments := Push(segments, current, sp.maxCount);
        current := Segment([]);
      }
      if pending != [] {
        segments := Push(segments, Segment(pending), sp.maxCount);
        pending := [];
      }
      segments := Push(segments, Segment([comp]), sp.maxCount);
    }
    assert chain[..|chain|] == chain;

    if |current.components| > 0 {
      segments := Push(segments, current, sp.maxCount);
    }

    ghost var raw := segments;
    RawSegmentsShape(sp, chain);
    r := StripEach(segments);
    StripAllShape(raw);
  }

  /** The Plain branch of `split_chain`: the text is split into runs; each
      run becomes a Plain after the waiting binding units, and a delimiter
      run closes the open segment. The buffer of the source is empty at every
      non-delimiter run, so its leftover branch is dead. */
  method SplitText(sp: MessageSplitter, segments0: seq<Segment>, current0: Segment, pending0: seq<Component>, text: string)
    returns (segments: seq<Segment>, current: Segment, pending: seq<Component>)
    requires text != "" && Compiles(sp.pattern)
    ensures SplitState(segments, current, pending) == Step(sp, SplitState(segments0, current0, pending0), Plain(text))
  {
    segments, current, pending := segments0, current0, pending0;
    var parts := SplitParts(sp.pattern, text);
    ghost var before := SplitState(segments, current, pending);
    var buf := "";
    for j := 0 to |parts|
      invariant buf == ""
      invariant SplitState(segments, current, pending) == PartsStep(sp, before, parts[..j])
    {
      assert parts[..j + 1][..j] == parts[..j];
      ghost var st := SplitState(segments, current, pending);
      assert PartsStep(sp, before, parts[..j + 1]) == PartStep(sp, st, parts[j]);
      var part := parts[j];
      if part == "" {
        continue;
      }
      ghost var d := Drain(st);
      if FullMatch(sp.pattern, part) {
        buf := buf + part;
        assert buf == part;
        if buf != "" {
          if pending != [] {
            current := current.Extend(pending);
            pending := [];
          }
          assert SplitState(segments, current, pending) == d;
          current := current.Append(Plain(buf));
          ghost var appended := SplitState(segments, current, pending);
          assert appended == d.(current := d.current.Append(Plain(part)));
          if |current.components| > 0 {
            segments := Push(segments, current, sp.maxCount);
            current := Segment([]);
          }
          assert SplitState(segments, current, pending) == Flush(appended, sp.maxCount);
          buf := "";
        }
        assert SplitState(segments, current, pending) == PartStep(sp, st, part);
      } else {
        if buf != "" {
          // buf is always empty at a non-delimiter run
          assert false;
        }
        if pending != [] {
          current := current.Extend(pending);
          pending := [];
        }
        assert SplitState(segments, current, pending) == d;
        current := current.Append(Plain(part));
        assert SplitState(segments, current, pending) == PartStep(sp, st, part);
      }
    }
    assert parts[..|parts|] == parts;
    if buf != "" {
      // the leftover-text branch is never taken
      assert false;
    }
  }

  /** The trim pass: `strip_tail_punctuation` on every segment, in order. */
  method StripEach(segments0: seq<Segment>) returns (segments: seq<Segment>)
    ensures segments == StripAll(segments0)
  {
    segments := segments0;
    for k := 0 to |segments|
      invariant |segments| == |segments0|
      invariant forall m | 0 <= m < k :: segments[m] == Segment(StripTail(segments0[m].components))
      invariant forall m | k <= m < |segments0| :: segments[m] == segments0[m]
    {
      var trimmed := StripTailPunctuation(segments[k]);
      segments := segments[k := trimmed];
    }
  }

  /** The trim pass keeps the number of segments and of units in each. */
  lemma StripAllShape(segs: seq<Segment>)
    ensures |StripAll(segs)| == |segs|
    ensures forall i | 0 <= i < |segs| :: |StripAll(segs)[i].components| == |segs[i].components|
    ensures AllNonEmpty(segs) ==> AllNonEmpty(StripAll(segs))
  {
    forall i | 0 <= i < |segs| ensures |StripAll(segs)[i].components| == |segs[i].components| {
      StripTailShape(segs[i].components);
    }
  }

  // ---------------------------------------------------------------------------
  // The reference: which units come out, in which order.
  // ---------------------------------------------------------------------------

  /** The units emitted so far and the binding units still waiting. */
  datatype Emission = Emission(emitted: seq<Component>, pending: seq<Component>)

  /** One Plain unit per part. */
  function PlainsOf(parts: seq<string>): (r: seq<Component>)
    ensures |r| == |parts|
    ensures forall j | 0 <= j < |parts| :: r[j] == Plain(parts[j])
  {
    if parts == [] then [] else PlainsOf(parts[..|parts| - 1]) + [Plain(parts[|parts| - 1])]
  }

  /** The order in which the pass places units, independent of segment
      boundaries: binding units wait until the next text or other component
      and go just before it, a non-empty text becomes one Plain per run, media
      are placed at once, and binding units still waiting at the end are not
      placed at all. */
  function Emit(sp: MessageSplitter, cs: seq<Component>): Emission
  {
    if cs == [] then Emission([], []) else Emit1(sp, Emit(sp, cs[..|cs| - 1]), cs[|cs| - 1])
  }

  lemma FlushKeeps(st: SplitState, maxCount: int)
    requires Good(st, maxCount)
    ensures var r := Flush(st, maxCount);
      Good(r, maxCount) && Placed(r) == Placed(st) && r.pending == st.pending && r.current.components == []
  {
    PushKeeps(st.segments, st.current, maxCount);
  }

  lemma DrainKeeps(st: SplitState, maxCount: int)
    requires Good(st, maxCount)
    ensures var r := Drain(st);
      Good(r, maxCount) && Placed(r) == Placed(st) + st.pending && r.pending == [] && r.segments == st.segments
  {
  }

  lemma AttachKeeps(st: SplitState, c: Component, maxCount: int)
    requires Good(st, maxCount)
    ensures var r := Attach(st, c, maxCount);
      Good(r, maxCount) && Placed(r) == Placed(st) + [c] && r.pending == st.pending
  {
    if |st.current.components| == 0 && |st.segments| > 0 {
      var n := |st.segments|;
      FlatExtendLast(st.segments, [c]);
      assert st.segments[n - 1].Append(c) == st.segments[n - 1].Extend([c]);
      assert st.segments[..n - 1] + [st.segments[n - 1].Extend([c])] == st.segments[n - 1 := st.segments[n - 1].Append(c)];
    } else if |st.current.components| == 0 {
      PushKeeps(st.segments, Segment([c]), maxCount);
    }
  }

  lemma IsolateKeeps(st: SplitState, c: Component, maxCount: int)
    requires Good(st, maxCount)
    ensures var r := Isolate(st, c, maxCount);
      Good(r, maxCount) && Placed(r) == Placed(st) + st.pending + [c] && r.pending == []
  {
    var f := Flush(st, maxCount);
    FlushKeeps(st, maxCount);
    assert Flat(f.segments) == Placed(st);
    var g := if f.pending != [] then SplitState(Push(f.segments, Segment(f.pending), maxCount), f.current, []) else f;
    if f.pending != [] {
      PushKeeps(f.segments, Segment(f.pending), maxCount);
    }
    assert Good(g, maxCount) && g.current.components == [] && g.pending == [];
    assert Flat(g.segments) == Placed(st) + st.pending;
    PushKeeps(g.segments, Segment([c]), maxCount);
    var r := g.(segments := Push(g.segments, Segment([c]), maxCount));
    assert r == Isolate(st, c, maxCount);
    assert Placed(r) == Flat(g.segments) + [c];
  }

  /** One run of a Plain text: the waiting binding units, then the run as a Plain. */
  lemma PartStepKeeps(sp: MessageSplitter, st: SplitState, part: string)
    requires Good(st, sp.maxCount) && part != ""
    ensures var r := PartStep(sp, st, part);
      Good(r, sp.maxCount) && Placed(r) == Placed(st) + st.pending + [Plain(part)] && r.pending == []
  {
    var d := Drain(st);
    DrainKeeps(st, sp.maxCount);
    var appended := d.(current := d.current.Append(Plain(part)));
    assert Placed(appended) == Placed(d) + [Plain(part)];
    FlushKeeps(appended, sp.maxCount);
  }

  /** Folding the runs of a Plain text over a good state keeps it good; once
      a run has been placed nothing waits any more. */
  lemma {:induction false} PartsStepGood(sp: MessageSplitter, st: SplitState, parts: seq<string>)
    requires Good(st, sp.maxCount)
    requires forall j | 0 <= j < |parts| :: parts[j] != ""
    ensures Good(PartsStep(sp, st, parts), sp.maxCount)
    ensures PartsStep(sp, st, parts).pending == (if parts == [] then st.pending else [])
  {
    if parts != [] {
      var init := parts[..|parts| - 1];
      PartsStepGood(sp, st, init);
      PartStepKeeps(sp, PartsStep(sp, st, init), parts[|parts| - 1]);
    }
  }

  /** The runs of a Plain text place the waiting binding units and then one
      Plain per run. */
  lemma {:induction false} PartsStepPlaces(sp: MessageSplitter, st: SplitState, parts: seq<string>)
    requires Good(st, sp.maxCount)
    requires forall j | 0 <= j < |parts| :: parts[j] != ""
    requires parts != []
    ensures Placed(PartsStep(sp, st, parts)) == Placed(st) + st.pending + PlainsOf(parts)
  {
    var init := parts[..|parts| - 1];
    var last := parts[|parts| - 1];
    var m := PartsStep(sp, st, init);
    PartsStepGood(sp, st, init);
    PartStepKeeps(sp, m, last);
    if init == [] {
      assert PlainsOf(init) == [];
    } else {
      PartsStepPlaces(sp, st, init);
    }
  }

  /** One step keeps the state good and extends the placed units exactly as
      the reference does. */
  lemma StepPlaces(sp: MessageSplitter, st: SplitState, c: Component, e: Emission)
    requires Good(st, sp.maxCount)
    requires Placed(st) == e.emitted && st.pending == e.pending
    ensures var r := Step(sp, st, c);
      Good(r, sp.maxCount) && Placed(r) == Emit1(sp, e, c).emitted && r.pending == Emit1(sp, e, c).pending
  {
    match c
    case At(_) =>
    case Reply(_) =>
    case Plain(text) =>
      if text != "" {
        PartsStepGood(sp, st, SplitParts(sp.pattern, text));
        PartsStepPlaces(sp, st, SplitParts(sp.pattern, text));
      }
    case Image(_) => AttachKeeps(st, c, sp.maxCount);
    case Face(_) => AttachKeeps(st, c, sp.maxCount);
    case Other(_) => IsolateKeeps(st, c, sp.maxCount);
  }

  /** The reference's rule for one component. */
  function Emit1(sp: MessageSplitter, e: Emission, c: Component): Emission
  {
    if IsBinding(c) then Emission(e.emitted, e.pending + [c])
    else if c.Plain? then
      if c.text == "" then e
      else Emission(e.emitted + e.pending + PlainsOf(SplitParts(sp.pattern, c.text)), [])
    else if IsMedia(c) then Emission(e.emitted + [c], e.pending)
    else Emission(e.emitted + e.pending + [c], [])
  }

  /** The pass places exactly the reference's units, keeps every closed
      segment non-empty, respects the cap and holds back only binding units. */
  lemma {:induction false} RunPlaces(sp: MessageSplitter, cs: seq<Component>)
    ensures Good(Run(sp, cs), sp.maxCount)
    ensures Placed(Run(sp, cs)) == Emit(sp, cs).emitted
    ensures Run(sp, cs).pending == Emit(sp, cs).pending
  {
    if cs != [] {
      RunPlaces(sp, cs[..|cs| - 1]);
      StepPlaces(sp, Run(sp, cs[..|cs| - 1]), cs[|cs| - 1], Emit(sp, cs[..|cs| - 1]));
    }
  }

  /** Before the trim pass: no segment is empty, the cap holds, and the units,
      read segment after segment, are exactly the reference's. */
  lemma RawSegmentsShape(sp: MessageSplitter, chain: seq<Component>)
    ensures AllNonEmpty(RawSegments(sp, chain))
    ensures WithinCap(RawSegments(sp, chain), sp.maxCount)
    ensures Flat(RawSegments(sp, chain)) == Emit(sp, chain).emitted
  {
    RunPlaces(sp, chain);
    var st := Run(sp, chain);
    PushKeeps(st.segments, st.current, sp.maxCount);
  }

  // ---------------------------------------------------------------------------
  // What the reference keeps of the input.
  // ---------------------------------------------------------------------------

  lemma {:induction false} PlainTextOfPlains(parts: seq<string>)
    ensures PlainText(PlainsOf(parts)) == Concat(parts)
  {
    if parts != [] {
      var init := parts[..|parts| - 1];
      PlainTextOfPlains(init);
      assert init + [parts[|parts| - 1]] == parts;
      ConcatAppend(init, [parts[|parts| - 1]]);
    }
  }

  lemma {:induction false} PlainsOfNoBinding(parts: seq<string>)
    ensures Filter(IsBinding, PlainsOf(parts)) == [] && Filter(IsAttachment, PlainsOf(parts)) == []
  {
    FilterNone(IsBinding, PlainsOf(parts));
    FilterNone(IsAttachment, PlainsOf(parts));
  }

  /** Only binding units ever wait. */
  lemma {:induction false} EmitPendingBinding(sp: MessageSplitter, cs: seq<Component>)
    ensures forall i | 0 <= i < |Emit(sp, cs).pending| :: IsBinding(Emit(sp, cs).pending[i])
  {
    if cs != [] {
      EmitPendingBinding(sp, cs[..|cs| - 1]);
    }
  }

  /** One component adds its own text to the placed units and nothing else. */
  lemma Emit1Text(sp: MessageSplitter, e: Emission, c: Component)
    requires forall i | 0 <= i < |e.pending| :: IsBinding(e.pending[i])
    ensures PlainText(Emit1(sp, e, c).emitted) == PlainText(e.emitted) + TextOf(c)
  {
    var t := PlainText(e.emitted);
    if IsBinding(c) || (c.Plain? && c.text == "") {
      assert TextOf(c) == "";
      assert t + "" == t;
    } else {
      PlainTextOfNoPlain(e.pending);
      PlainTextConcat(e.emitted, e.pending);
      assert PlainText(e.emitted + e.pending) == t by {
        assert t + "" == t;
      }
      if c.Plain? {
        var parts := SplitParts(sp.pattern, c.text);
        PlainTextConcat(e.emitted + e.pending, PlainsOf(parts));
        PlainTextOfPlains(parts);
        assert Emit1(sp, e, c).emitted == e.emitted + e.pending + PlainsOf(parts);
      } else {
        assert PlainText([c]) == PlainText([]) + TextOf(c);
        if IsMedia(c) {
          PlainTextConcat(e.emitted, [c]);
          assert Emit1(sp, e, c).emitted == e.emitted + [c];
        } else {
          PlainTextConcat(e.emitted + e.pending, [c]);
          assert Emit1(sp, e, c).emitted == e.emitted + e.pending + [c];
        }
      }
    }
  }

  /** Text preservation: the Plain payloads placed, in order, are the input's
      Plain payloads, in order; an empty text contributes nothing. */
  lemma {:induction false} EmitKeepsText(sp: MessageSplitter, cs: seq<Component>)
    ensures PlainText(Emit(sp, cs).emitted) == PlainText(cs)
  {
    if cs != [] {
      var init := cs[..|cs| - 1];
      EmitKeepsText(sp, init);
      EmitPendingBinding(sp, init);
      Emit1Text(sp, Emit(sp, init), cs[|cs| - 1]);
    }
  }

  /** One component adds itself to the binding units placed or waiting, if
      it is one; waiting units are placed in order ahead of the rest. */
  lemma Emit1Bindings(sp: MessageSplitter, e: Emission, c: Component)
    requires forall i | 0 <= i < |e.pending| :: IsBinding(e.pending[i])
    ensures Filter(IsBinding, Emit1(sp, e, c).emitted) + Emit1(sp, e, c).pending
      == Filter(IsBinding, e.emitted) + e.pending + Filter(IsBinding, [c])
  {
    var b := Filter(IsBinding, e.emitted);
    FilterOne(IsBinding, c);
    if IsBinding(c) {
      assert b + (e.pending + [c]) == b + e.pending + [c];
    } else if c.Plain? && c.text == "" {
      assert b + e.pending + [] == b + e.pending;
    } else if c.Plain? {
      Emit1BindingsText(sp, e, c);
    } else {
      Emit1BindingsAttachment(sp, e, c);
    }
  }

  /** An image, face or other component adds no binding unit; an other
      component places the waiting units ahead of itself. */
  lemma Emit1BindingsAttachment(sp: MessageSplitter, e: Emission, c: Component)
    requires forall i | 0 <= i < |e.pending| :: IsBinding(e.pending[i])
    requires IsAttachment(c)
    ensures Filter(IsBinding, Emit1(sp, e, c).emitted) + Emit1(sp, e, c).pending
      == Filter(IsBinding, e.emitted) + e.pending
  {
    FilterOne(IsBinding, c);
    if IsMedia(c) {
      assert Emit1(sp, e, c) == Emission(e.emitted + [c], e.pending);
      FilterConcat(IsBinding, e.emitted, [c]);
      assert Filter(IsBinding, e.emitted) + [] == Filter(IsBinding, e.emitted);
    } else {
      assert Emit1(sp, e, c) == Emission(e.emitted + e.pending + [c], []);
      FilterPlacedBindings(e.emitted, e.pending, [c]);
    }
  }

  /** A non-empty text places the waiting units and adds no binding unit. */
  lemma Emit1BindingsText(sp: MessageSplitter, e: Emission, c: Component)
    requires forall i | 0 <= i < |e.pending| :: IsBinding(e.pending[i])
    requires c.Plain? && c.text != ""
    ensures Filter(IsBinding, Emit1(sp, e, c).emitted) == Filter(IsBinding, e.emitted) + e.pending
    ensures Emit1(sp, e, c).pending == []
  {
    var tail := PlainsOf(SplitParts(sp.pattern, c.text));
    assert Emit1(sp, e, c) == Emission(e.emitted + e.pending + tail, []);
    PlainsOfNoBinding(SplitParts(sp.pattern, c.text));
    FilterPlacedBindings(e.emitted, e.pending, tail);
  }

  /** Filtering a single unit keeps it exactly when the filter accepts it. */
  lemma FilterOne(keep: Component -> bool, c: Component)
    ensures Filter(keep, [c]) == if keep(c) then [c] else []
  {
    assert [c][..0] == [];
  }

  /** Waiting binding units placed ahead of units with no binding among
      them: the placed bindings grow by exactly the waiting ones. */
  lemma FilterPlacedBindings(emitted: seq<Component>, pending: seq<Component>, tail: seq<Component>)
    requires forall i | 0 <= i < |pending| :: IsBinding(pending[i])
    requires Filter(IsBinding, tail) == []
    ensures Filter(IsBinding, emitted + pending + tail) == Filter(IsBinding, emitted) + pending
  {
    FilterAll(IsBinding, pending);
    FilterConcat(IsBinding, emitted, pending);
    FilterConcat(IsBinding, emitted + pending, tail);
    assert Filter(IsBinding, emitted) + pending + [] == Filter(IsBinding, emitted) + pending;
  }

  /** Binding units are neither duplicated nor reordered: those placed,
      followed by those still waiting, are the input's, in order. */
  lemma {:induction false} EmitKeepsBindings(sp: MessageSplitter, cs: seq<Component>)
    ensures Filter(IsBinding, Emit(sp, cs).emitted) + Emit(sp, cs).pending == Filter(IsBinding, cs)
  {
    if cs != [] {
      var init := cs[..|cs| - 1];
      var c := cs[|cs| - 1];
      EmitKeepsBindings(sp, init);
      EmitPendingBinding(sp, init);
      Emit1Bindings(sp, Emit(sp, init), c);
      FilterConcat(IsBinding, init, [c]);
      assert init + [c] == cs;
    }
  }

  /** One component adds itself to the placed media and other components, if
      it is one. */
  lemma Emit1Attachments(sp: MessageSplitter, e: Emission, c: Component)
    requires forall i | 0 <= i < |e.pending| :: IsBinding(e.pending[i])
    ensures Filter(IsAttachment, Emit1(sp, e, c).emitted) == Filter(IsAttachment, e.emitted) + Filter(IsAttachment, [c])
  {
    assert Filter(IsAttachment, [c]) == Filter(IsAttachment, []) + (if IsAttachment(c) then [c] else []);
    var a := Filter(IsAttachment, e.emitted);
    if IsBinding(c) || (c.Plain? && c.text == "") {
      assert a + [] == a;
    } else {
      FilterNone(IsAttachment, e.pending);
      FilterConcat(IsAttachment, e.emitted, e.pending);
      assert Filter(IsAttachment, e.emitted + e.pending) == a by { assert a + [] == a; }
      if c.Plain? {
        var parts := SplitParts(sp.pattern, c.text);
        FilterConcat(IsAttachment, e.emitted + e.pending, PlainsOf(parts));
        PlainsOfNoBinding(parts);
        assert Emit1(sp, e, c).emitted == e.emitted + e.pending + PlainsOf(parts);
        assert a + [] == a;
      } else if IsMedia(c) {
        FilterConcat(IsAttachment, e.emitted, [c]);
        assert Emit1(sp, e, c).emitted == e.emitted + [c];
      } else {
        FilterConcat(IsAttachment, e.emitted + e.pending, [c]);
        assert Emit1(sp, e, c).emitted == e.emitted + e.pending + [c];
      }
    }
  }

  /** Media and other components are all placed, once each, in input order. */
  lemma {:induction false} EmitKeepsAttachments(sp: MessageSplitter, cs: seq<Component>)
    ensures Filter(IsAttachment, Emit(sp, cs).emitted) == Filter(IsAttachment, cs)
  {
    if cs != [] {
      var init := cs[..|cs| - 1];
      var c := cs[|cs| - 1];
      EmitKeepsAttachments(sp, init);
      EmitPendingBinding(sp, init);
      Emit1Attachments(sp, Emit(sp, init), c);
      FilterConcat(IsAttachment, init, [c]);
      assert init + [c] == cs;
    }
  }

  /** Binding units are lost only at the end: when the chain ends in a
      non-empty text or an other component, nothing waits. */
  lemma EmitNothingWaits(sp: MessageSplitter, cs: seq<Component>)
    requires cs != []
    requires var c := cs[|cs| - 1]; (c.Plain? && c.text != "") || c.Other?
    ensures Emit(sp, cs).pending == []
  {
  }

  // ---------------------------------------------------------------------------
  // The properties of `split_chain`'s result.
  // ---------------------------------------------------------------------------

  /** Swapping one dropped unit for another leaves a filter unchanged. */
  lemma FilterReplace(keep: Component -> bool, a: seq<Component>, x: Component, y: Component, b: seq<Component>)
    requires !keep(x) && !keep(y)
    ensures Filter(keep, a + [x] + b) == Filter(keep, a + [y] + b)
  {
    FilterConcat(keep, a + [x], b);
    FilterConcat(keep, a, [x]);
    FilterConcat(keep, a + [y], b);
    FilterConcat(keep, a, [y]);
    FilterNone(keep, [x]);
    FilterNone(keep, [y]);
  }

  /** The trim of a segment keeps its non-Plain units, in order. */
  lemma FilterStripTail(keep: Component -> bool, cs: seq<Component>)
    requires forall t: string :: !keep(Plain(t))
    ensures Filter(keep, StripTail(cs)) == Filter(keep, cs)
  {
    var k := LastPlain(cs);
    if k >= 0 {
      var x, y := cs[k], Plain(TrimTail(cs[k].text));
      UpdateAt(cs, k, y);
      assert !keep(x) by { assert x == Plain(x.text); }
      FilterReplace(keep, cs[..k], x, y, cs[k + 1..]);
    }
  }

  /** A sequence and its one-place update, cut around that place. */
  lemma UpdateAt(cs: seq<Component>, k: nat, y: Component)
    requires k < |cs|
    ensures cs == cs[..k] + [cs[k]] + cs[k + 1..]
    ensures cs[k := y] == cs[..k] + [y] + cs[k + 1..]
  {
  }

  /** The trim pass keeps the non-Plain units of a segment list, in order. */
  lemma {:induction false} FilterStripAll(keep: Component -> bool, segs: seq<Segment>)
    requires forall t: string :: !keep(Plain(t))
    ensures Filter(keep, Flat(StripAll(segs))) == Filter(keep, Flat(segs))
  {
    if segs != [] {
      var init := segs[..|segs| - 1];
      var last := segs[|segs| - 1];
      assert StripAll(segs)[..|segs| - 1] == StripAll(init);
      FilterStripAll(keep, init);
      FilterConcat(keep, Flat(StripAll(init)), StripTail(last.components));
      FilterConcat(keep, Flat(init), last.components);
      FilterStripTail(keep, last.components);
    }
  }

  /** Before the trim pass the segments hold, in order, exactly the input's
      Plain text, with nothing lost, duplicated or reordered. */
  lemma SplitChainKeepsText(sp: MessageSplitter, chain: seq<Component>)
    ensures PlainText(Flat(RawSegments(sp, chain))) == PlainText(chain)
  {
    RawSegmentsShape(sp, chain);
    EmitKeepsText(sp, chain);
  }

  /** Every Reply/At of the input is in exactly one segment of the result,
      in input order, except the ones still waiting at the end of the chain,
      which are dropped; those are binding units only. */
  lemma SplitChainKeepsBindings(sp: MessageSplitter, chain: seq<Component>)
    ensures Filter(IsBinding, Flat(SplitChainSpec(sp, chain))) + Emit(sp, chain).pending == Filter(IsBinding, chain)
    ensures Filter(IsBinding, Flat(RawSegments(sp, chain))) + Emit(sp, chain).pending == Filter(IsBinding, chain)
    ensures forall i | 0 <= i < |Emit(sp, chain).pending| :: IsBinding(Emit(sp, chain).pending[i])
  {
    RawSegmentsShape(sp, chain);
    EmitKeepsBindings(sp, chain);
    EmitPendingBinding(sp, chain);
    FilterStripAll(IsBinding, RawSegments(sp, chain));
  }

  /** Every Image, Face and other component of the input is in exactly one
      segment of the result, in input order; the trim pass does not touch
      them. */
  lemma SplitChainKeepsAttachments(sp: MessageSplitter, chain: seq<Component>)
    ensures Filter(IsAttachment, Flat(SplitChainSpec(sp, chain))) == Filter(IsAttachment, chain)
    ensures Filter(IsAttachment, Flat(RawSegments(sp, chain))) == Filter(IsAttachment, chain)
  {
    RawSegmentsShape(sp, chain);
    EmitKeepsAttachments(sp, chain);
    FilterStripAll(IsAttachment, RawSegments(sp, chain));
  }

  /** The trim pass changes only the last Plain unit of each segment, and a
      second pass would change nothing. */
  lemma StripAllIdempotent(segs: seq<Segment>)
    ensures StripAll(StripAll(segs)) == StripAll(segs)
  {
    forall i | 0 <= i < |segs| ensures StripAll(StripAll(segs))[i] == StripAll(segs)[i] {
      StripTailIdempotent(segs[i].components);
    }
  }

  /** Without a cap, an other component closes the open segment, the waiting
      binding units become a segment of their own, and the component stands
      alone as the last segment; nothing is left open or waiting. */
  lemma OtherStandsAlone(sp: MessageSplitter, st: SplitState, c: Component)
    requires c.Other? && sp.maxCount <= 0
    ensures var r := Step(sp, st, c);
      r.current.components == [] && r.pending == []
      && r.segments == st.segments
        + (if st.current.components == [] then [] else [st.current])
        + (if st.pending == [] then [] else [Segment(st.pending)])
        + [Segment([c])]
  {
    var f := Flush(st, sp.maxCount);
    PushKeeps(st.segments, st.current, sp.maxCount);
    assert f.segments == st.segments + (if st.current.components == [] then [] else [st.current]);
    if f.pending != [] {
      PushKeeps(f.segments, Segment(f.pending), sp.maxCount);
    }
  }

  /** Without a cap, a delimiter run becomes a Plain unit of its own that
      closes the open segment, together with the waiting binding units; any
      other run joins the open segment and leaves it open. */
  lemma PartStepCloses(sp: MessageSplitter, st: SplitState, part: string)
    requires part != "" && sp.maxCount <= 0
    ensures var r := PartStep(sp, st, part);
      var grown := st.current.components + st.pending + [Plain(part)];
      r.pending == []
      && (FullMatch(sp.pattern, part) ==>
            r.current.components == [] && r.segments == st.segments + [Segment(grown)])
      && (!FullMatch(sp.pattern, part) ==>
            r.segments == st.segments && r.current.components == grown)
  {
    var d := Drain(st);
    assert d.current.components == st.current.components + st.pending by {
      if st.pending == [] { assert st.current.components + [] == st.current.components; }
    }
    var appended := d.(current := d.current.Append(Plain(part)));
    assert appended.current.components == st.current.components + st.pending + [Plain(part)];
    assert d.segments == st.segments;
  }

  /** An Image or Face never closes a segment: the number of closed segments
      only grows when nothing has been built yet, and then by the unit alone. */
  lemma MediaNeverCloses(sp: MessageSplitter, st: SplitState, c: Component)
    requires IsMedia(c) && Good(st, sp.maxCount)
    ensures var r := Step(sp, st, c);
      r.pending == st.pending
      && (|st.segments| > 0 || |st.current.components| > 0 ==> |r.segments| == |st.segments|)
      && (|st.segments| == 0 && |st.current.components| == 0 ==> r.segments == [Segment([c])])
      && Placed(r) == Placed(st) + [c]
  {
    PushKeeps(st.segments, Segment([c]), sp.maxCount);
    AttachKeeps(st, c, sp.maxCount);
  }
}
