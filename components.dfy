/** The typed units an outgoing message chain is made of, and the text and
    whitespace notions the splitter computes over them. */
module Components {

  /** One unit of a message chain. Non-text units carry an id that stands for
      the identity of the component object, so that a unit can be followed
      from the input chain into the segments. A Plain whose text is None is
      modelled as Plain(""): the splitter reads it as `comp.text or ""`. */
  datatype Component =
    | Plain(text: string)
    | At(id: int)
    | Reply(id: int)
    | Image(id: int)
    | Face(id: int)
    | Other(id: int)

  /** Reply and At units belong to whatever segment forms after them. */
  predicate IsBinding(c: Component) { c.At? || c.Reply? }

  /** Image and Face units follow the segment before them. */
  predicate IsMedia(c: Component) { c.Image? || c.Face? }

  /** Every unit that is neither text nor a binding unit: media and the rest. */
  predicate IsAttachment(c: Component) { !c.Plain? && !IsBinding(c) }

  /** The text a unit contributes to a segment's text. */
  function TextOf(c: Component): string { if c.Plain? then c.text else "" }

  /** Concatenation, in order, of the Plain payloads of `cs`. */
  function PlainText(cs: seq<Component>): string
  {
    if cs == [] then "" else PlainText(cs[..|cs| - 1]) + TextOf(cs[|cs| - 1])
  }

  lemma {:induction false} PlainTextConcat(a: seq<Component>, b: seq<Component>)
    ensures PlainText(a + b) == PlainText(a) + PlainText(b)
    decreases |b|
  {
    if b == [] {
      assert a + b == a;
    } else {
      assert (a + b)[..|a + b| - 1] == a + b[..|b| - 1];
      PlainTextConcat(a, b[..|b| - 1]);
    }
  }

  /** A sequence with no Plain unit contributes no text. */
  lemma {:induction false} PlainTextOfNoPlain(cs: seq<Component>)
    requires forall i | 0 <= i < |cs| :: !cs[i].Plain?
    ensures PlainText(cs) == ""
  {
    if cs != [] {
      PlainTextOfNoPlain(cs[..|cs| - 1]);
    }
  }

  /** The units of `cs` for which `keep` holds, in order. */
  function Filter(keep: Component -> bool, cs: seq<Component>): (r: seq<Component>)
    ensures |r| <= |cs|
    ensures forall i | 0 <= i < |r| :: keep(r[i])
  {
    if cs == [] then []
    else Filter(keep, cs[..|cs| - 1]) + (if keep(cs[|cs| - 1]) then [cs[|cs| - 1]] else [])
  }

  lemma {:induction false} FilterConcat(keep: Component -> bool, a: seq<Component>, b: seq<Component>)
    ensures Filter(keep, a + b) == Filter(keep, a) + Filter(keep, b)
    decreases |b|
  {
    if b == [] {
      assert a + b == a;
    } else {
      assert (a + b)[..|a + b| - 1] == a + b[..|b| - 1];
      FilterConcat(keep, a, b[..|b| - 1]);
    }
  }

  /** Filtering keeps everything exactly when every unit is kept. */
  lemma {:induction false} FilterAll(keep: Component -> bool, cs: seq<Component>)
    requires forall i | 0 <= i < |cs| :: keep(cs[i])
    ensures Filter(keep, cs) == cs
  {
    if cs != [] {
      FilterAll(keep, cs[..|cs| - 1]);
    }
  }

  lemma {:induction false} FilterNone(keep: Component -> bool, cs: seq<Component>)
    requires forall i | 0 <= i < |cs| :: !keep(cs[i])
    ensures Filter(keep, cs) == []
  {
    if cs != [] {
      FilterNone(keep, cs[..|cs| - 1]);
    }
  }

  /** The characters Python's `str.isspace` (and so both `str.strip()` and the
      regular-expression class `\s`) treats as whitespace. */
  predicate IsSpace(ch: char)
  {
    ch == '\t' || ch == '\n' || ch == '\U{000B}' || ch == '\U{000C}' || ch == '\r'
    || ('\U{001C}' <= ch <= '\U{001F}') || ch == ' ' || ch == '\U{0085}' || ch == '\U{00A0}'
    || ch == '\U{1680}' || ('\U{2000}' <= ch <= '\U{200A}') || ch == '\U{2028}'
    || ch == '\U{2029}' || ch == '\U{202F}' || ch == '\U{205F}' || ch == '\U{3000}'
  }

  /** `not s.strip()`: the text is empty or all whitespace. */
  predicate IsBlank(s: string)
  {
    forall i | 0 <= i < |s| :: IsSpace(s[i])
  }
}
