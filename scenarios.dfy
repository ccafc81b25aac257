/** Concrete runs of `split_chain` and `split` that pin down their behaviour
    on delimiters, a leading image, a trailing mention, the cap and the pause
    after the last send. */
module Scenarios {
  import opened Components
  import opened Segments
  import opened SplitPattern
  import opened Splitter
  import opened Dispatch

  /** A splitter on the ideographic full stop, with no cap. */
  function FullStop(): MessageSplitter
  {
    MessageSplitter([Literal('\U{3002}')], 0, 1.0, 2.0)
  }

  lemma FullStopMatches(ch: char)
    ensures Matches(FullStop().pattern, ch) <==> ch == '\U{3002}'
  {
    var p := FullStop().pattern;
    assert |p| == 1 && p[0] == Literal('\U{3002}');
    if ch == '\U{3002}' {
      assert ItemMatches(p[0], ch);
    }
  }

  /** The split of a one-character text that is not a delimiter. */
  lemma SplitOneLetter(ch: char)
    requires ch != '\U{3002}'
    ensures SplitParts(FullStop().pattern, [ch]) == [[ch]]
  {
    FullStopMatches(ch);
    assert [ch][..1] == [ch] && [ch][1..] == [];
  }

  /** "。b" splits into the stop and the letter. */
  lemma StopLetterSplit()
    ensures SplitParts(FullStop().pattern, "\U{3002}b") == ["\U{3002}", "b"]
  {
    var p := FullStop().pattern;
    FullStopMatches('b');
    FullStopMatches('\U{3002}');
    SplitOneLetter('b');
    assert "\U{3002}b"[..1] == "\U{3002}" && "\U{3002}b"[1..] == "b";
    assert RunLength(p, "\U{3002}b") == 1;
  }

  /** "a。b" splits into the letter, the stop and the letter. */
  lemma FullStopSplit()
    ensures SplitParts(FullStop().pattern, "a\U{3002}b") == ["a", "\U{3002}", "b"]
  {
    var p := FullStop().pattern;
    var text := "a\U{3002}b";
    FullStopMatches('a');
    FullStopMatches('\U{3002}');
    StopLetterSplit();
    assert text[..1] == "a" && text[1..] == "\U{3002}b";
    assert RunLength(p, text) == 1;
  }

  /** Only the stop is a delimiter run. */
  lemma FullStopRuns()
    ensures FullMatch(FullStop().pattern, "\U{3002}")
    ensures !FullMatch(FullStop().pattern, "a") && !FullMatch(FullStop().pattern, "b")
  {
    FullStopMatches('a');
    FullStopMatches('b');
    FullStopMatches('\U{3002}');
    assert "a"[0] == 'a' && "b"[0] == 'b' && "\U{3002}"[0] == '\U{3002}';
  }

  /** The pass over those three parts: the stop closes the first segment. */
  lemma FullStopParts()
    ensures PartsStep(FullStop(), SplitState([], Segment([]), []), ["a", "\U{3002}", "b"])
      == SplitState([Segment([Plain("a"), Plain("\U{3002}")])], Segment([Plain("b")]), [])
  {
    var sp := FullStop();
    FullStopRuns();
    var st0 := SplitState([], Segment([]), []);
    var parts := ["a", "\U{3002}", "b"];
    assert parts[..2] == ["a", "\U{3002}"] && parts[..2][..1] == ["a"] && parts[..1][..0] == [];
    var s1 := PartsStep(sp, st0, ["a"]);
    assert s1 == PartStep(sp, st0, "a");
    assert s1 == SplitState([], Segment([Plain("a")]), []);
    var s2 := PartsStep(sp, st0, ["a", "\U{3002}"]);
    assert s2 == PartStep(sp, s1, "\U{3002}");
    var cur := Segment([Plain("a")]).Append(Plain("\U{3002}"));
    assert cur == Segment([Plain("a"), Plain("\U{3002}")]);
    assert Push([], cur, 0) == [cur];
    assert s2 == SplitState([cur], Segment([]), []);
    assert PartsStep(sp, st0, parts) == PartStep(sp, s2, "b");
  }

  /** The trim pass over two segments. */
  lemma StripTwo(x: Segment, y: Segment)
    ensures StripAll([x, y]) == [Segment(StripTail(x.components)), Segment(StripTail(y.components))]
  {
  }

  lemma LettersAreNotPunct()
    ensures !IsTailPunct('a') && !IsTailPunct('b')
  {
  }

  /** A segment holding one letter is left as it is by the trim. */
  lemma StripLetter(ch: char)
    requires !IsTailPunct(ch)
    ensures StripTail([Plain([ch])]) == [Plain([ch])]
  {
    assert LastPlain([Plain([ch])]) == 0;
  }

  /** The trim empties a trailing stop but keeps its unit. */
  lemma StripStop()
    ensures StripTail([Plain("a"), Plain("\U{3002}")]) == [Plain("a"), Plain("")]
  {
    var cs := [Plain("a"), Plain("\U{3002}")];
    assert LastPlain(cs) == 1;
    assert "\U{3002}"[..0] == "";
    assert TrimTail("") == "";
    assert TrimTail("\U{3002}") == "";
  }

  /** Before the trim the stop closes the first segment. */
  lemma DelimiterRaw()
    ensures RawSegments(FullStop(), [Plain("a\U{3002}b")])
      == [Segment([Plain("a"), Plain("\U{3002}")]), Segment([Plain("b")])]
  {
    var sp := FullStop();
    var text := "a\U{3002}b";
    FullStopSplit();
    FullStopParts();
    var s3 := SplitState([Segment([Plain("a"), Plain("\U{3002}")])], Segment([Plain("b")]), []);
    assert [Plain(text)][..0] == [];
    assert Run(sp, [Plain(text)]) == s3;
  }

  /** A delimiter run becomes a Plain unit of its own that closes the
      segment; the trim then empties it rather than removing it. */
  lemma DelimiterClosesSegment()
    ensures SplitChainSpec(FullStop(), [Plain("a\U{3002}b")])
      == [Segment([Plain("a"), Plain("")]), Segment([Plain("b")])]
  {
    var x := Segment([Plain("a"), Plain("\U{3002}")]);
    var y := Segment([Plain("b")]);
    DelimiterRaw();
    assert SplitChainSpec(FullStop(), [Plain("a\U{3002}b")]) == StripAll([x, y]);
    StripTwo(x, y);
    StripStop();
    LettersAreNotPunct();
    StripLetter('b');
    assert ['b'] == "b";
    assert StripAll([x, y]) == [Segment([Plain("a"), Plain("")]), Segment([Plain("b")])];
  }

  /** An image at the start of the chain is a segment of its own. */
  lemma LeadingImageStandsAlone()
    ensures SplitChainSpec(FullStop(), [Image(1), Plain("a")])
      == [Segment([Image(1)]), Segment([Plain("a")])]
  {
    LeadingImageRaw();
    StripTwo(Segment([Image(1)]), Segment([Plain("a")]));
    LettersAreNotPunct();
    StripLetter('a');
    assert LastPlain([Image(1)]) == -1 by {
      assert [Image(1)][..0] == [];
    }
  }

  lemma LeadingImageRaw()
    ensures RawSegments(FullStop(), [Image(1), Plain("a")]) == [Segment([Image(1)]), Segment([Plain("a")])]
  {
    var sp := FullStop();
    var chain := [Image(1), Plain("a")];
    SplitOneLetter('a');
    FullStopMatches('a');
    assert "a"[0] == 'a';
    assert !FullMatch(sp.pattern, "a");
    var st0 := SplitState([], Segment([]), []);
    assert chain[..1] == [Image(1)] && chain[..1][..0] == [];
    var s1 := Run(sp, chain[..1]);
    assert s1 == Step(sp, st0, Image(1));
    assert s1 == SplitState([Segment([Image(1)])], Segment([]), []);
    assert ["a"][..0] == [];
    assert PartsStep(sp, s1, ["a"]) == PartStep(sp, s1, "a");
    assert Segment([]).Append(Plain("a")) == Segment([Plain("a")]);
    assert PartStep(sp, s1, "a") == SplitState([Segment([Image(1)])], Segment([Plain("a")]), []);
    assert Run(sp, chain) == SplitState([Segment([Image(1)])], Segment([Plain("a")]), []);
  }

  /** A mention at the very end of the chain is in no segment. */
  lemma TrailingMentionDropped()
    ensures SplitChainSpec(FullStop(), [Other(1), At(2)]) == [Segment([Other(1)])]
  {
    var sp := FullStop();
    var chain := [Other(1), At(2)];
    assert chain[..1] == [Other(1)] && chain[..1][..0] == [];
    assert Run(sp, chain[..1]) == SplitState([Segment([Other(1)])], Segment([]), []);
    assert Run(sp, chain) == SplitState([Segment([Other(1)])], Segment([]), [At(2)]);
  }

  /** At the cap, pushing a segment merges its units into the last one. */
  lemma CapPush()
    ensures Push([Segment([Other(1)])], Segment([Other(2)]), 1) == [Segment([Other(1), Other(2)])]
  {
    assert [Segment([Other(1)])][..0] == [];
    assert [Other(1)] + [Other(2)] == [Other(1), Other(2)];
  }

  /** The first other component, with nothing built, is a segment of its own. */
  lemma FirstOther(sp: MessageSplitter)
    ensures Run(sp, [Other(1)]) == SplitState([Segment([Other(1)])], Segment([]), [])
  {
    assert [Other(1)][..0] == [];
    assert Push([], Segment([Other(1)]), sp.maxCount) == [Segment([Other(1)])];
  }

  /** With a cap of one, a second segment is merged into the first. */
  lemma CapMergesIntoLast()
    ensures SplitChainSpec(FullStop().(maxCount := 1), [Other(1), Other(2)]) == [Segment([Other(1), Other(2)])]
  {
    var sp := FullStop().(maxCount := 1);
    var chain := [Other(1), Other(2)];
    assert chain[..1] == [Other(1)];
    FirstOther(sp);
    var s1 := SplitState([Segment([Other(1)])], Segment([]), []);
    CapPush();
    assert Isolate(s1, Other(2), 1) == SplitState([Segment([Other(1), Other(2)])], Segment([]), []);
    assert Run(sp, chain) == Step(sp, s1, Other(2));
    assert LastPlain([Other(1), Other(2)]) == -1 by {
      assert [Other(1), Other(2)][..1] == [Other(1)];
      assert [Other(1)][..0] == [];
    }
  }

  /** With two segments the first is sent and, once delivered, still
      followed by its pause although nothing else is sent afterwards. */
  lemma PauseAfterLastSend(sp: MessageSplitter, segs: seq<Segment>, delivered: nat -> bool)
    requires |segs| == 2 && !segs[0].IsEmpty() && delivered(0)
    ensures DispatchTrace(sp, segs, delivered) == [Send(0, segs[0].components, true), Sleep(PauseAfter(sp, segs[0]))]
  {
    assert Attempts(sp, segs, 1, delivered) == [] + Attempt(sp, segs, 0, delivered);
  }
}
