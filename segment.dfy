/** The `Segment` container of core/split.py: an ordered group of components
    delivered together, its derived queries and its tail-punctuation trim. */
module Segments {
  import opened Components

  /** The characters the trim removes from the end of the last Plain text:
      ASCII and full-width commas, periods, the ideographic comma,
      semicolons and colons. */
  predicate IsTailPunct(ch: char)
  {
    ch in ",，。.、；;：:"
  }

  /** A logical segment. Value semantics: the splitter never shares a
      segment or a Plain unit between two places, so an in-place update of
      the source is a new value here. */
  datatype Segment = Segment(components: seq<Component>)
  {
    /** The concatenated Plain text, used for the pacing delay. */
    function Text(): string
    {
      PlainText(components)
    }

    /** Whether some unit is not Plain (image, face, mention, anything else). */
    predicate HasMedia()
    {
      exists i | 0 <= i < |components| :: !components[i].Plain?
    }

    /** No text besides whitespace and no non-text unit. */
    predicate IsEmpty()
    {
      IsBlank(Text()) && !HasMedia()
    }

    /** `append`: the component goes at the end. */
    function Append(c: Component): Segment
    {
      Segment(components + [c])
    }

    /** `extend`: the components go at the end, in order. */
    function Extend(cs: seq<Component>): Segment
    {
      Segment(components + cs)
    }
  }

  /** Extending a segment extends its text by the new units' text and gives
      it media exactly when either part has some. */
  lemma ExtendQueries(seg: Segment, cs: seq<Component>)
    ensures seg.Extend(cs).Text() == seg.Text() + PlainText(cs)
    ensures seg.Extend(cs).HasMedia() <==> seg.HasMedia() || Segment(cs).HasMedia()
  {
    PlainTextConcat(seg.components, cs);
    HasMediaConcat(seg.components, cs);
  }

  /** Appending one unit adds its text, and media when it is not Plain. */
  lemma AppendQueries(seg: Segment, c: Component)
    ensures seg.Append(c).Text() == seg.Text() + TextOf(c)
    ensures seg.Append(c).HasMedia() <==> seg.HasMedia() || !c.Plain?
  {
    ExtendQueries(seg, [c]);
    assert PlainText([c]) == PlainText([]) + TextOf(c);
    assert Segment([c]).HasMedia() <==> !c.Plain? by {
      if !c.Plain? { assert Segment([c]).components[0] == c; }
    }
  }

  lemma HasMediaConcat(a: seq<Component>, b: seq<Component>)
    ensures Segment(a + b).HasMedia() <==> Segment(a).HasMedia() || Segment(b).HasMedia()
  {
    var ab := a + b;
    if Segment(b).HasMedia() {
      var i :| 0 <= i < |b| && !b[i].Plain?;
      assert ab[|a| + i] == b[i];
    }
    if Segment(a).HasMedia() {
      var i :| 0 <= i < |a| && !a[i].Plain?;
      assert ab[i] == a[i];
    }
    if Segment(ab).HasMedia() {
      var i :| 0 <= i < |ab| && !ab[i].Plain?;
      if i < |a| { assert ab[i] == a[i]; } else { assert ab[i] == b[i - |a|]; }
    }
  }

  lemma {:induction false} BlankConcat(a: string, b: string)
    ensures IsBlank(a + b) <==> IsBlank(a) && IsBlank(b)
  {
    if IsBlank(a) && IsBlank(b) {
      forall i | 0 <= i < |a + b| ensures IsSpace((a + b)[i]) {
        if i >= |a| { assert (a + b)[i] == b[i - |a|]; }
      }
    }
    if IsBlank(a + b) {
      forall i | 0 <= i < |a| ensures IsSpace(a[i]) {
        assert (a + b)[i] == a[i];
      }
      forall i | 0 <= i < |b| ensures IsSpace(b[i]) {
        assert (a + b)[|a| + i] == b[i];
      }
    }
  }

  /** The text of a chain is blank exactly when every Plain payload is. */
  lemma {:induction false} BlankPlainText(cs: seq<Component>)
    ensures IsBlank(PlainText(cs)) <==> forall i | 0 <= i < |cs| :: IsBlank(TextOf(cs[i]))
  {
    if cs != [] {
      var init := cs[..|cs| - 1];
      BlankPlainText(init);
      BlankConcat(PlainText(init), TextOf(cs[|cs| - 1]));
      assert forall i | 0 <= i < |init| :: init[i] == cs[i];
    }
  }

  /** `is_empty` holds exactly when every unit is a Plain whose text is blank. */
  lemma IsEmptyIff(seg: Segment)
    ensures seg.IsEmpty() <==>
      forall i | 0 <= i < |seg.components| :: seg.components[i].Plain? && IsBlank(seg.components[i].text)
  {
    BlankPlainText(seg.components);
  }

  /** The trim regex anchored at the true end of the text: removes the longest
      trailing run of tail punctuation. */
  function TrimTail(s: string): (r: string)
    ensures r <= s
    ensures r == [] || !IsTailPunct(r[|r| - 1])
    ensures forall i | |r| <= i < |s| :: IsTailPunct(s[i])
  {
    if s != [] && IsTailPunct(s[|s| - 1]) then TrimTail(s[..|s| - 1]) else s
  }

  /** The three properties of TrimTail pin it down: no other prefix has them. */
  lemma {:induction false} TrimTailUnique(s: string, t: string)
    requires t <= s
    requires t == [] || !IsTailPunct(t[|t| - 1])
    requires forall i | |t| <= i < |s| :: IsTailPunct(s[i])
    ensures t == TrimTail(s)
  {
    var r := TrimTail(s);
    assert |t| == |r|;
  }

  /** The corrected trim is idempotent. */
  lemma TrimTailIdempotent(s: string)
    ensures TrimTail(TrimTail(s)) == TrimTail(s)
  {
    var r := TrimTail(s);
    TrimTailUnique(r, r);
  }

  /** The trim as the source writes it: `re.sub(r"[...]+$", "", text)`. In
      Python `$` also matches just before a final newline, so for a text
      ending in "\n" the punctuation run before that newline is removed and
      the newline kept; otherwise the run at the true end is removed. */
  function TrimTailAsWritten(s: string): (r: string)
    ensures |s| > 0 && s[|s| - 1] == '\n' ==>
      |r| > 0 && r[|r| - 1] == '\n'
      && r[..|r| - 1] <= s[..|s| - 1]
      && (|r| == 1 || !IsTailPunct(r[|r| - 2]))
      && forall i | |r| - 1 <= i < |s| - 1 :: IsTailPunct(s[i])
    ensures (|s| == 0 || s[|s| - 1] != '\n') ==>
      r <= s
      && (r == [] || !IsTailPunct(r[|r| - 1]))
      && forall i | |r| <= i < |s| :: IsTailPunct(s[i])
  {
    if |s| > 0 && s[|s| - 1] == '\n' then
      var t := TrimTail(s[..|s| - 1]);
      var r := t + "\n";
      assert |r| == |t| + 1 && r[|t|] == '\n' && r[..|t|] == t;
      assert |t| > 0 ==> r[|t| - 1] == t[|t| - 1];
      r
    else TrimTail(s)
  }

  /** The as-written trim is not idempotent: a second call strips the
      punctuation that the first call's leftover final newline exposed. */
  lemma TrimTailAsWrittenNotIdempotent()
    ensures TrimTailAsWritten("a.\n.") == "a.\n"
    ensures TrimTailAsWritten(TrimTailAsWritten("a.\n.")) == "a\n"
    ensures TrimTailAsWritten(TrimTailAsWritten("a.\n.")) != TrimTailAsWritten("a.\n.")
  {
    assert "a.\n."[..3] == "a.\n";
    assert "a.\n"[..2] == "a.";
    assert "a."[..1] == "a";
    assert TrimTail("a") == "a";
    assert TrimTail("a.") == "a";
    assert TrimTail("a.\n") == "a.\n";
    assert TrimTail("a.\n.") == "a.\n";
    assert "a.\n"[2] == '\n';
    assert "a\n" != "a.\n";
  }

  /** Index of the last Plain unit, or -1 when there is none. */
  function LastPlain(cs: seq<Component>): (k: int)
    ensures -1 <= k < |cs|
    ensures k >= 0 ==> cs[k].Plain?
    ensures forall i | k < i < |cs| :: !cs[i].Plain?
  {
    if cs == [] then -1
    else if cs[|cs| - 1].Plain? then |cs| - 1
    else LastPlain(cs[..|cs| - 1])
  }

  /** The position found by a backwards scan is the last Plain position. */
  lemma {:induction false} LastPlainAt(cs: seq<Component>, k: int)
    requires -1 <= k < |cs|
    requires k >= 0 ==> cs[k].Plain?
    requires forall i | k < i < |cs| :: !cs[i].Plain?
    ensures LastPlain(cs) == k
  {
    if cs != [] && k < |cs| - 1 {
      LastPlainAt(cs[..|cs| - 1], k);
    }
  }

  /** What `strip_tail_punctuation` makes of a segment's units: only the last
      Plain unit changes, its text trimmed; no Plain unit, no change. */
  function StripTail(cs: seq<Component>): seq<Component>
  {
    var k := LastPlain(cs);
    if k < 0 then cs else cs[k := Plain(TrimTail(cs[k].text))]
  }

  /** A trimmed segment has the same units, the same kinds and the same last
      Plain position; only that unit's text can differ. */
  lemma StripTailShape(cs: seq<Component>)
    ensures |StripTail(cs)| == |cs|
    ensures LastPlain(StripTail(cs)) == LastPlain(cs)
    ensures forall i | 0 <= i < |cs| && i != LastPlain(cs) :: StripTail(cs)[i] == cs[i]
  {
    var k := LastPlain(cs);
    var r := StripTail(cs);
    var k' := LastPlain(r);
    assert forall i | k < i < |r| :: r[i] == cs[i];
    LastPlainAt(r, k);
  }

  /** Trimming twice is trimming once. */
  lemma StripTailIdempotent(cs: seq<Component>)
    ensures StripTail(StripTail(cs)) == StripTail(cs)
  {
    var k := LastPlain(cs);
    StripTailShape(cs);
    if k >= 0 {
      TrimTailIdempotent(cs[k].text);
      assert StripTail(cs)[k] == Plain(TrimTail(cs[k].text));
    }
  }

  /** `Segment.strip_tail_punctuation`: scans the units from the end and trims
      the text of the first Plain met, then stops. */
  method StripTailPunctuation(seg: Segment) returns (r: Segment)
    ensures r.components == StripTail(seg.components)
    ensures |r.components| == |seg.components|
  {
    var cs := seg.components;
    var i := |cs|;
    while i > 0 && !cs[i - 1].Plain?
      invariant 0 <= i <= |cs|
      invariant forall j | i <= j < |cs| :: !cs[j].Plain?
    {
      i := i - 1;
    }
    LastPlainAt(cs, i - 1);
    if i > 0 {
      cs := cs[i - 1 := Plain(TrimTail(cs[i - 1].text))];
    }
    r := Segment(cs);
  }
}
