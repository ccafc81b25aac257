/** The delimiter-class compiler `MessageSplitter._build_split_pattern` and the
    capturing split of a Plain text into delimiter and non-delimiter runs. The
    regular-expression engine itself is replaced by a character predicate and
    maximal-run tokenisation. */
module SplitPattern {
  import opened Components

  /** One member of the compiled character class `[...]`. */
  datatype ClassItem = Literal(ch: char) | AnyWhitespace

  /** The compiled class; the matcher is the class repeated one or more times. */
  type Pattern = seq<ClassItem>

  predicate ItemMatches(item: ClassItem, ch: char)
  {
    match item
    case Literal(c) => c == ch
    case AnyWhitespace => IsSpace(ch)
  }

  /** Whether `ch` belongs to the class. */
  predicate Matches(p: Pattern, ch: char)
  {
    exists i | 0 <= i < |p| :: ItemMatches(p[i], ch)
  }

  /** "[]+" is not a valid regular expression: the class needs a member. */
  predicate Compiles(p: Pattern)
  {
    |p| > 0
  }

  /** What one configured token stands for: the two characters `\n` mean a
      newline, the two characters `\s` any whitespace, and any other token its
      own characters taken literally. */
  predicate TokenAdmits(token: string, ch: char)
  {
    if token == "\\n" then ch == '\n'
    else if token == "\\s" then IsSpace(ch)
    else ch in token
  }

  /** `re.escape(token)` placed inside a class: each character literally. */
  function EscapedLiterals(token: string): (items: seq<ClassItem>)
    ensures |items| == |token|
    ensures forall ch :: Matches(items, ch) <==> ch in token
  {
    var items := seq(|token|, i requires 0 <= i < |token| => Literal(token[i]));
    assert forall i | 0 <= i < |token| :: ItemMatches(items[i], token[i]);
    items
  }

  lemma MatchesConcat(p: Pattern, q: Pattern, ch: char)
    ensures Matches(p + q, ch) <==> Matches(p, ch) || Matches(q, ch)
  {
    if Matches(p, ch) {
      var i :| 0 <= i < |p| && ItemMatches(p[i], ch);
      assert (p + q)[i] == p[i];
    }
    if Matches(q, ch) {
      var i :| 0 <= i < |q| && ItemMatches(q[i], ch);
      assert (p + q)[|p| + i] == q[i];
    }
    if Matches(p + q, ch) {
      var i :| 0 <= i < |p + q| && ItemMatches((p + q)[i], ch);
      if i < |p| { assert (p + q)[i] == p[i]; } else { assert (p + q)[i] == q[i - |p|]; }
    }
  }

  /** `_build_split_pattern`: one class entry per configured token, in order.
      The class admits exactly the characters some token admits, and it is a
      valid pattern exactly when some token is non-empty. */
  method BuildSplitPattern(charList: seq<string>) returns (p: Pattern)
    ensures forall ch :: Matches(p, ch) <==> exists k | 0 <= k < |charList| :: TokenAdmits(charList[k], ch)
    ensures Compiles(p) <==> exists k | 0 <= k < |charList| :: charList[k] != ""
  {
    p := [];
    for k := 0 to |charList|
      invariant forall ch :: Matches(p, ch) <==> exists j | 0 <= j < k :: TokenAdmits(charList[j], ch)
      invariant Compiles(p) <==> exists j | 0 <= j < k :: charList[j] != ""
    {
      var token := charList[k];
      var items: seq<ClassItem>;
      if token == "\\n" {
        items := [Literal('\n')];
      } else if token == "\\s" {
        items := [AnyWhitespace];
      } else {
        items := EscapedLiterals(token);
      }
      assert forall ch :: Matches(items, ch) <==> TokenAdmits(token, ch) by {
        forall ch ensures Matches(items, ch) <==> TokenAdmits(token, ch) {
          if token == "\\n" || token == "\\s" {
            assert items[0] == if token == "\\n" then Literal('\n') else AnyWhitespace;
          }
        }
      }
      forall ch ensures Matches(p + items, ch) <==> exists j | 0 <= j < k + 1 :: TokenAdmits(charList[j], ch) {
        MatchesConcat(p, items, ch);
      }
      p := p + items;
    }
  }

  /** `re.fullmatch(pattern, part)`: the part is one or more class characters. */
  predicate FullMatch(p: Pattern, s: string)
  {
    |s| > 0 && forall i | 0 <= i < |s| :: Matches(p, s[i])
  }

  /** No character of `s` is in the class. */
  predicate NoMatch(p: Pattern, s: string)
  {
    forall i | 0 <= i < |s| :: !Matches(p, s[i])
  }

  /** Length of the longest non-empty prefix of `s` whose characters are all
      delimiters or all non-delimiters. */
  function RunLength(p: Pattern, s: string): (n: nat)
    requires |s| > 0
    ensures 1 <= n <= |s|
    ensures forall i | 0 <= i < n :: Matches(p, s[i]) == Matches(p, s[0])
    ensures n < |s| ==> Matches(p, s[n]) != Matches(p, s[0])
  {
    if |s| == 1 || Matches(p, s[1]) != Matches(p, s[0]) then 1
    else 1 + RunLength(p, s[1..])
  }

  /** Concatenation of a list of texts. */
  function Concat(ss: seq<string>): string
  {
    if ss == [] then "" else ss[0] + Concat(ss[1..])
  }

  lemma {:induction false} ConcatAppend(a: seq<string>, b: seq<string>)
    ensures Concat(a + b) == Concat(a) + Concat(b)
  {
    if a == [] {
      assert a + b == b;
    } else {
      assert (a + b)[1..] == a[1..] + b;
      ConcatAppend(a[1..], b);
    }
  }

  /** `re.split(f"({pattern})", text)` with the empty parts dropped, as the
      splitter iterates it: the maximal runs of `text`, alternating between
      delimiter runs and the text between them. They concatenate back to the
      text, none is empty, each is all delimiters or none, and two neighbours
      are never of the same kind, so each delimiter run is maximal. */
  function SplitParts(p: Pattern, text: string): (parts: seq<string>)
    ensures Concat(parts) == text
    ensures forall j | 0 <= j < |parts| :: |parts[j]| > 0
    ensures forall j | 0 <= j < |parts| :: FullMatch(p, parts[j]) || NoMatch(p, parts[j])
    ensures forall j | 0 <= j < |parts| - 1 :: FullMatch(p, parts[j]) != FullMatch(p, parts[j + 1])
    ensures text != "" ==> |parts| > 0
    decreases |text|
  {
    if text == [] then []
    else
      var n := RunLength(p, text);
      var rest := SplitParts(p, text[n..]);
      assert text[..n] + text[n..] == text;
      assert n < |text| ==> rest[0][0] == text[n];
      [text[..n]] + rest
  }
}
