/** The recipe-text parser: splitting a recipe's markdown into slide
    fragments (`parseToSlides`, up to the raw fragment text that is handed to
    the markdown renderer) and pulling the bullet items out of its
    ingredients section (`extractIngredients`). Both read the text as the
    lines of `split('\n')`. */
module MarkdownParser {
  import opened Wrappers
  import opened Text

  // ---------------------------------------------------------------------
  // Line classification
  // ---------------------------------------------------------------------

  /** The number of '#' characters that open `line`. */
  function HashRun(line: string): (n: nat)
    ensures n <= |line|
    ensures n == |line| || line[n] != '#'
  {
    if line != [] && line[0] == '#' then 1 + HashRun(line[1..]) else 0
  }

  /** Every character before the end of the run is a '#'. */
  lemma {:induction false} HashRunHashes(line: string)
    ensures forall i :: 0 <= i < HashRun(line) ==> line[i] == '#'
  {
    if line != [] && line[0] == '#' {
      HashRunHashes(line[1..]);
    }
  }

  /** A heading line, `/^#{1,3}\s/`: one to three '#' directly followed by
      whitespace, so "####" or "#title" is not a heading. The section closer
      `/^#{1,3}\s+/` of the ingredient scanner accepts the same lines. */
  predicate IsHeading(line: string) {
    var n := HashRun(line);
    1 <= n <= 3 && n < |line| && IsSpace(line[n])
  }

  /** The heading pattern read literally, with the backtracking of `#{1,3}`:
      some count of one to three '#' followed by a whitespace character. */
  lemma HeadingPattern(line: string)
    ensures IsHeading(line) <==>
      exists k :: 1 <= k <= 3 && k < |line| && IsSpace(line[k])
                  && forall i :: 0 <= i < k ==> line[i] == '#'
  {
    var n := HashRun(line);
    HashRunHashes(line);
    if exists k :: 1 <= k <= 3 && k < |line| && IsSpace(line[k])
                   && forall i :: 0 <= i < k ==> line[i] == '#' {
      var k :| 1 <= k <= 3 && k < |line| && IsSpace(line[k])
               && forall i :: 0 <= i < k ==> line[i] == '#';
      assert n == k;
    }
  }

  /** A horizontal rule, `/^(\*{3,}|-{3,})$/`: three or more '*' or three or
      more '-', and nothing else. */
  predicate IsRule(line: string) {
    |line| >= 3 && (Repeats(line, '*') || Repeats(line, '-'))
  }

  /** Every character of `s` is `c`. */
  predicate Repeats(s: string, c: char) {
    s == [] || (s[0] == c && Repeats(s[1..], c))
  }

  // ---------------------------------------------------------------------
  // Slide segmentation
  // ---------------------------------------------------------------------

  /** Concatenation of a list of lists, in order. */
  function Flatten<T>(gs: seq<seq<T>>): seq<T> {
    if gs == [] then [] else Flatten(gs[..|gs| - 1]) + gs[|gs| - 1]
  }

  /** The lines that are not horizontal rules, in order. */
  function Kept(lines: seq<string>): seq<string> {
    if lines == [] then []
    else Kept(lines[..|lines| - 1]) + (if IsRule(lines[|lines| - 1]) then [] else [lines[|lines| - 1]])
  }

  /** A fragment's lines: no horizontal rule, and a heading only as the
      first line. */
  predicate FragmentShape(g: seq<string>) {
    forall i :: 0 <= i < |g| ==> !IsRule(g[i]) && (i > 0 ==> !IsHeading(g[i]))
  }

  /** The state of the segmentation loop: the fragments already pushed (as
      line lists) and the lines of the fragment being collected. */
  datatype Segmentation = Segmentation(done: seq<seq<string>>, buffer: seq<string>)

  /** One iteration of the loop: a heading or a rule pushes a non-empty
      buffer and starts an empty one; every line but a rule is then appended. */
  function Feed(s: Segmentation, line: string): Segmentation {
    var closed :=
      if (IsHeading(line) || IsRule(line)) && |s.buffer| > 0
      then Segmentation(s.done + [s.buffer], [])
      else s;
    if IsRule(line) then closed else closed.(buffer := closed.buffer + [line])
  }

  /** What the loop keeps true: nothing pushed is empty, and every pushed
      fragment and the buffer have the fragment shape. */
  predicate Shaped(s: Segmentation) {
    && (forall k :: 0 <= k < |s.done| ==> |s.done[k]| > 0 && FragmentShape(s.done[k]))
    && FragmentShape(s.buffer)
  }

  /** One iteration keeps the loop invariant and passes every line but a
      rule on, after the lines collected so far. */
  lemma FeedStep(s: Segmentation, line: string)
    requires Shaped(s)
    ensures Shaped(Feed(s, line))
    ensures Flatten(Feed(s, line).done) + Feed(s, line).buffer
         == Flatten(s.done) + s.buffer + (if IsRule(line) then [] else [line])
  {
    if (IsHeading(line) || IsRule(line)) && |s.buffer| > 0 {
      assert (s.done + [s.buffer])[..|s.done|] == s.done;
    }
  }

  /** The loop state after the given lines. */
  function FeedAll(lines: seq<string>): Segmentation {
    if lines == [] then Segmentation([], [])
    else Feed(FeedAll(lines[..|lines| - 1]), lines[|lines| - 1])
  }

  /** The loop invariant: the pushed fragments and the buffer together hold
      exactly the non-rule lines in their order, nothing pushed is empty, and
      every fragment has the fragment shape. */
  lemma {:induction false} FeedAllSpec(lines: seq<string>)
    ensures Flatten(FeedAll(lines).done) + FeedAll(lines).buffer == Kept(lines)
    ensures Shaped(FeedAll(lines))
  {
    if lines != [] {
      FeedAllSpec(lines[..|lines| - 1]);
      FeedStep(FeedAll(lines[..|lines| - 1]), lines[|lines| - 1]);
    }
  }

  /** The fragments as line lists: the loop's pushes plus the final push of
      a non-empty buffer. */
  function Fragments(lines: seq<string>): (groups: seq<seq<string>>)
    ensures Flatten(groups) == Kept(lines)
    ensures forall k :: 0 <= k < |groups| ==> |groups[k]| > 0 && FragmentShape(groups[k])
  {
    var s := FeedAll(lines);
    FeedAllSpec(lines);
    if |s.buffer| > 0 then
      assert (s.done + [s.buffer])[..|s.done|] == s.done;
      s.done + [s.buffer]
    else s.done
  }

  function JoinEach(groups: seq<seq<string>>): (texts: seq<string>)
    ensures |texts| == |groups|
    ensures forall k :: 0 <= k < |groups| ==> texts[k] == Join(groups[k])
  {
    seq(|groups|, k requires 0 <= k < |groups| => Join(groups[k]))
  }

  function SplitEach(texts: seq<string>): (groups: seq<seq<string>>)
    ensures |groups| == |texts|
    ensures forall k :: 0 <= k < |texts| ==> groups[k] == Split(texts[k])
  {
    seq(|texts|, k requires 0 <= k < |texts| => Split(texts[k]))
  }

  /** `parseToSlides` without the final rendering: the raw markdown of each
      slide. An empty text has no slides. */
  function ParseToSlides(text: string): (slides: seq<string>)
    ensures text == "" ==> slides == []
    ensures |slides| <= |Split(text)|
  {
    if text == "" then []
    else
      var groups := Fragments(Split(text));
      FlattenLength(groups);
      KeptLength(Split(text));
      JoinEach(groups)
  }

  /** Non-empty groups are no more than their elements. */
  lemma {:induction false} FlattenLength<T>(gs: seq<seq<T>>)
    requires forall k :: 0 <= k < |gs| ==> |gs[k]| > 0
    ensures |gs| <= |Flatten(gs)|
  {
    if gs != [] {
      FlattenLength(gs[..|gs| - 1]);
    }
  }

  lemma {:induction false} KeptLength(lines: seq<string>)
    ensures |Kept(lines)| <= |lines|
  {
    if lines != [] {
      KeptLength(lines[..|lines| - 1]);
    }
  }

  /** The lines a list of slides spells out again: each slide split back on
      newlines, all of them concatenated. */
  function Unsegment(slides: seq<string>): seq<string> {
    Flatten(SplitEach(slides))
  }

  lemma SplitEachJoinEach(groups: seq<seq<string>>)
    requires forall k :: 0 <= k < |groups| ==> |groups[k]| > 0
    requires forall k, i :: 0 <= k < |groups| && 0 <= i < |groups[k]| ==> '\n' !in groups[k][i]
    ensures SplitEach(JoinEach(groups)) == groups
  {
    forall k | 0 <= k < |groups|
      ensures Split(Join(groups[k])) == groups[k]
    {
      SplitJoin(groups[k]);
    }
  }

  lemma {:induction false} FlattenHas<T>(gs: seq<seq<T>>, k: nat, i: nat)
    requires k < |gs| && i < |gs[k]|
    ensures gs[k][i] in Flatten(gs)
  {
    if k < |gs| - 1 {
      FlattenHas(gs[..|gs| - 1], k, i);
    }
  }

  lemma {:induction false} KeptFrom(lines: seq<string>, x: string)
    requires x in Kept(lines)
    ensures x in lines && !IsRule(x)
  {
    if x !in Kept(lines[..|lines| - 1]) {
      assert x == lines[|lines| - 1];
    } else {
      KeptFrom(lines[..|lines| - 1], x);
    }
  }

  /** For a non-empty text the slides are exactly the joins of the fragment
      line lists, each of which is non-empty and has the fragment shape. */
  lemma SlidesAreJoinedFragments(text: string)
    requires text != ""
    ensures var groups := Fragments(Split(text));
            && ParseToSlides(text) == JoinEach(groups)
            && SplitEach(ParseToSlides(text)) == groups
            && forall k :: 0 <= k < |groups| ==> |groups[k]| > 0 && FragmentShape(groups[k])
  {
    var lines := Split(text);
    var groups := Fragments(lines);
    forall k, i | 0 <= k < |groups| && 0 <= i < |groups[k]|
      ensures '\n' !in groups[k][i]
    {
      FlattenHas(groups, k, i);
      KeptFrom(lines, groups[k][i]);
    }
    SplitEachJoinEach(groups);
  }

  /** Splitting the slides back into lines and concatenating them gives the
      input lines with the horizontal rules removed, in their original
      order: nothing but rules is dropped, nothing is duplicated or moved. */
  lemma SlidesRestoreLines(text: string)
    requires text != ""
    ensures Unsegment(ParseToSlides(text)) == Kept(Split(text))
  {
    SlidesAreJoinedFragments(text);
  }

  /** No slide contains a horizontal rule, and a heading line is only ever
      the first line of its slide. */
  lemma SlidesShape(text: string)
    ensures forall k :: 0 <= k < |ParseToSlides(text)| ==> FragmentShape(Split(ParseToSlides(text)[k]))
  {
    if text != "" {
      SlidesAreJoinedFragments(text);
    }
  }

  lemma {:induction false} KeptEmpty(lines: seq<string>)
    ensures Kept(lines) == [] <==> forall i :: 0 <= i < |lines| ==> IsRule(lines[i])
  {
    if lines != [] {
      var init := lines[..|lines| - 1];
      KeptEmpty(init);
      if Kept(lines) == [] {
        assert forall i :: 0 <= i < |lines| - 1 ==> lines[i] == init[i];
      } else {
        assert forall i :: 0 <= i < |init| ==> init[i] == lines[i];
      }
    }
  }

  lemma {:induction false} FlattenEmpty<T>(gs: seq<seq<T>>)
    requires forall k :: 0 <= k < |gs| ==> |gs[k]| > 0
    ensures Flatten(gs) == [] <==> gs == []
  {
  }

  /** A text has no slides exactly when it is empty or every one of its
      lines is a horizontal rule: "---" has none, "\n" has one. */
  lemma NoSlidesIff(text: string)
    ensures ParseToSlides(text) == [] <==>
            text == "" || forall i :: 0 <= i < |Split(text)| ==> IsRule(Split(text)[i])
  {
    if text != "" {
      var groups := Fragments(Split(text));
      assert |ParseToSlides(text)| == |groups|;
      FlattenEmpty(groups);
      KeptEmpty(Split(text));
      assert (ParseToSlides(text) == []) == (groups == []);
      assert (groups == []) == (Flatten(groups) == []);
      assert Flatten(groups) == Kept(Split(text));
      assert (Kept(Split(text)) == []) == (forall i :: 0 <= i < |Split(text)| ==> IsRule(Split(text)[i]));
    }
  }

  lemma {:induction false} FeedAllPlain(lines: seq<string>)
    requires forall i :: 0 <= i < |lines| ==> !IsHeading(lines[i]) && !IsRule(lines[i])
    ensures FeedAll(lines) == Segmentation([], lines)
  {
    if lines != [] {
      var init := lines[..|lines| - 1];
      var x := lines[|lines| - 1];
      FeedAllPlain(init);
      assert Feed(Segmentation([], init), x) == Segmentation([], init + [x]);
      assert init + [x] == lines;
    }
  }

  /** A non-empty text with no heading and no horizontal rule is one slide,
      the whole text. */
  lemma SingleSlideWithoutBoundaries(text: string)
    requires text != ""
    requires forall i :: 0 <= i < |Split(text)| ==> !IsHeading(Split(text)[i]) && !IsRule(Split(text)[i])
    ensures ParseToSlides(text) == [text]
  {
    FeedAllPlain(Split(text));
  }


  /** The slides of a text whose lines feed to `done` with `buffer` left over. */
  lemma SlidesFromFeed(text: string, done: seq<seq<string>>, buffer: seq<string>)
    requires text != "" && FeedAll(Split(text)) == Segmentation(done, buffer)
    ensures ParseToSlides(text) == JoinEach(if |buffer| > 0 then done + [buffer] else done)
  {
  }

  // ---------------------------------------------------------------------
  // Where slides begin: the fragments after one more line
  // ---------------------------------------------------------------------

  /** The fragments the final push leaves from a loop state. */
  function Close(s: Segmentation): seq<seq<string>> {
    if |s.buffer| > 0 then s.done + [s.buffer] else s.done
  }

  lemma FragmentsClose(lines: seq<string>)
    ensures Fragments(lines) == Close(FeedAll(lines))
  {
  }

  lemma FeedAllSnoc(x: seq<string>, a: string)
    ensures FeedAll(x + [a]) == Feed(FeedAll(x), a)
  {
    assert (x + [a])[..|x|] == x;
  }

  /** The buffer is empty right after a rule and holds the line right after
      any other line. */
  lemma BufferAfterLast(x: seq<string>)
    requires x != []
    ensures IsRule(x[|x| - 1]) ==> FeedAll(x).buffer == []
    ensures !IsRule(x[|x| - 1]) ==> |FeedAll(x).buffer| > 0
  {
    FeedAllSnoc(x[..|x| - 1], x[|x| - 1]);
    assert x[..|x| - 1] + [x[|x| - 1]] == x;
  }

  /** A horizontal rule adds no slide and no line to any slide. */
  lemma FragmentsAfterRule(x: seq<string>, r: string)
    requires IsRule(r)
    ensures Fragments(x + [r]) == Fragments(x)
  {
    FragmentsClose(x);
    FragmentsClose(x + [r]);
    FeedAllSnoc(x, r);
  }

  /** A line that is not a rule starts a new slide of its own when it is the
      first line, a heading, or the line right after a rule. */
  lemma FragmentsNewSlide(x: seq<string>, a: string)
    requires !IsRule(a) && (x == [] || IsHeading(a) || IsRule(x[|x| - 1]))
    ensures Fragments(x + [a]) == Fragments(x) + [[a]]
  {
    FragmentsClose(x);
    FragmentsClose(x + [a]);
    FeedAllSnoc(x, a);
    var s := FeedAll(x);
    if x != [] {
      BufferAfterLast(x);
    }
    if |s.buffer| > 0 {
      assert IsHeading(a);
      assert Feed(s, a) == Segmentation(s.done + [s.buffer], [a]);
    } else {
      assert Feed(s, a) == Segmentation(s.done, [a]);
    }
  }

  /** Any other line that is not a rule joins the slide being collected: a
      slide begins only where the previous rule requires it. */
  lemma FragmentsSameSlide(x: seq<string>, a: string)
    requires x != [] && !IsRule(x[|x| - 1]) && !IsRule(a) && !IsHeading(a)
    ensures |Fragments(x)| > 0
    ensures Fragments(x + [a]) == Fragments(x)[..|Fragments(x)| - 1] + [Fragments(x)[|Fragments(x)| - 1] + [a]]
  {
    FragmentsClose(x);
    FragmentsClose(x + [a]);
    FeedAllSnoc(x, a);
    BufferAfterLast(x);
    var s := FeedAll(x);
    assert Fragments(x) == s.done + [s.buffer];
    assert Fragments(x)[..|Fragments(x)| - 1] == s.done;
  }

  lemma FeedTwoThenHeading(a: string, b: string, h: string)
    requires !IsRule(a) && !IsRule(b) && !IsHeading(b) && IsHeading(h) && !IsRule(h)
    ensures FeedAll([a, b, h]) == Segmentation([[a, b]], [h])
  {
    var lines := [a, b, h];
    assert lines[..2][..1] == [a] && lines[..2] == [a, b];
    assert FeedAll([a]) == Segmentation([], [a]);
    assert FeedAll(lines[..2]) == Segmentation([], [a, b]);
  }

  lemma JoinPairThenSingle(a: string, b: string, h: string)
    ensures JoinEach([[a, b], [h]]) == [a + "\n" + b, h]
  {
    var slides := JoinEach([[a, b], [h]]);
    assert [a, b][1..] == [b];
    assert Join([b]) == b;
    assert Join([a, b]) == a + "\n" + Join([b]);
    assert Join([h]) == h;
    assert slides[0] == a + "\n" + b && slides[1] == h;
  }

  /** Lines that are not boundaries stay together up to the next heading:
      "a\nb\n# c" is the slides "a\nb" and "# c". */
  lemma LinesJoinUntilHeading(a: string, b: string, h: string)
    requires '\n' !in a && '\n' !in b && '\n' !in h
    requires !IsRule(a) && !IsRule(b) && !IsHeading(b) && IsHeading(h) && !IsRule(h)
    ensures ParseToSlides(a + "\n" + b + "\n" + h) == [a + "\n" + b, h]
  {
    var text := a + "\n" + b + "\n" + h;
    SplitThreeLines(a, b, h);
    FeedTwoThenHeading(a, b, h);
    assert text[|a|] == '\n';
    SlidesFromFeed(text, [[a, b]], [h]);
    JoinPairThenSingle(a, b, h);
  }

  lemma SplitTwoLines(a: string, b: string)
    requires '\n' !in a && '\n' !in b
    ensures Split(a + "\n" + b) == [a, b]
  {
    SplitSingle(b);
    SplitAfterLine(a, b);
  }

  lemma FeedLineHeading(a: string, h: string)
    requires !IsRule(a) && IsHeading(h) && !IsRule(h)
    ensures FeedAll([a, h]) == Segmentation([[a]], [h])
  {
    assert [a, h][..1] == [a];
    assert FeedAll([a]) == Segmentation([], [a]);
  }

  /** Slides that are single lines join back to those lines. */
  lemma JoinSingles(a: string, b: string)
    ensures JoinEach([[a], [b]]) == [a, b]
  {
    var slides := JoinEach([[a], [b]]);
    assert slides[0] == a && slides[1] == b;
  }

  /** Any line that is not a rule, blank ones included, is a slide of its own
      when a heading follows it: "\n# A" gives an empty slide and then "# A". */
  lemma LineBeforeHeading(a: string, h: string)
    requires '\n' !in a && '\n' !in h
    requires !IsRule(a) && IsHeading(h) && !IsRule(h)
    ensures ParseToSlides(a + "\n" + h) == [a, h]
  {
    var text := a + "\n" + h;
    SplitTwoLines(a, h);
    FeedLineHeading(a, h);
    assert text[|a|] == '\n';
    SlidesFromFeed(text, [[a]], [h]);
    JoinSingles(a, h);
  }

  /** A text that is only a rule has no slides. */
  lemma RuleOnlyNoSlides(r: string)
    requires IsRule(r)
    ensures ParseToSlides(r) == []
  {
    assert '\n' !in r by {
      if '\n' in r {
        var i :| 0 <= i < |r| && r[i] == '\n';
        RepeatsAt(r, i);
      }
    }
    SplitSingle(r);
    NoSlidesIff(r);
  }

  /** Each character of a repeated run is the repeated character. */
  lemma {:induction false} RepeatsAt(s: string, i: nat)
    requires (Repeats(s, '*') || Repeats(s, '-')) && i < |s|
    ensures s[i] == '*' || s[i] == '-'
  {
    if i > 0 {
      assert s[1..][i - 1] == s[i];
      RepeatsAt(s[1..], i - 1);
    }
  }

  lemma SplitThreeLines(a: string, r: string, b: string)
    requires '\n' !in a && '\n' !in r && '\n' !in b
    ensures Split(a + "\n" + r + "\n" + b) == [a, r, b]
  {
    SplitTwoLines(r, b);
    assert a + "\n" + r + "\n" + b == a + "\n" + (r + "\n" + b);
    SplitAfterLine(a, r + "\n" + b);
  }

  lemma FeedLineRuleHeading(a: string, r: string, b: string)
    requires !IsRule(a) && IsRule(r) && IsHeading(b) && !IsRule(b)
    ensures FeedAll([a, r, b]) == Segmentation([[a]], [b])
  {
    var lines := [a, r, b];
    assert lines[..2][..1] == [a] && lines[..2] == [a, r];
    assert FeedAll([a]) == Segmentation([], [a]);
    assert FeedAll(lines[..2]) == Segmentation([[a]], []);
  }

  /** A rule right after a line adds no empty slide: a line, a rule and a
      heading give two slides, the line and the heading. */
  lemma ConsecutiveBoundaries(a: string, r: string, b: string)
    requires '\n' !in a && '\n' !in r && '\n' !in b
    requires !IsRule(a) && IsRule(r) && IsHeading(b) && !IsRule(b)
    ensures ParseToSlides(a + "\n" + r + "\n" + b) == [a, b]
  {
    var text := a + "\n" + r + "\n" + b;
    SplitThreeLines(a, r, b);
    FeedLineRuleHeading(a, r, b);
    assert text[|a|] == '\n';
    SlidesFromFeed(text, [[a]], [b]);
    JoinSingles(a, b);
  }

  // ---------------------------------------------------------------------
  // Ingredient extraction
  // ---------------------------------------------------------------------

  /** Starts with one of the section labels "Ingredients", "材料" or
      "用意するもの", ignoring the case of ASCII letters. */
  predicate StartsWithLabel(s: string) {
    StartsWithAny(Lower(s), Labels)
  }

  /** The section labels, in lower case. */
  const Labels: seq<string> := ["ingredients", "材料", "用意するもの"]

  predicate StartsWithAny(s: string, prefixes: seq<string>) {
    prefixes != [] && (StartsWith(s, prefixes[0]) || StartsWithAny(s, prefixes[1..]))
  }

  /** A section opener, `/^#{1,3}\s*(Ingredients|材料|用意するもの)/i`: one to
      three '#', any amount of whitespace (none included, so "##材料" opens),
      then a label. Whatever follows the label does not matter. */
  predicate IsOpener(line: string) {
    var n := HashRun(line);
    1 <= n <= 3 && StartsWithLabel(line[n + SpaceRun(line, n)..])
  }

  /** A label starts neither with whitespace nor with '#'. */
  lemma LabelStart(s: string)
    requires StartsWithLabel(s)
    ensures |s| > 0 && !IsSpace(s[0]) && s[0] != '#'
  {
    var t := Lower(s);
    var rest1 := Labels[1..];
    if StartsWith(t, Labels[0]) {
      assert t[0] == 'i';
    } else {
      assert StartsWithAny(t, rest1);
      if StartsWith(t, rest1[0]) {
        assert t[0] == '材';
      } else {
        var rest2 := rest1[1..];
        assert StartsWithAny(t, rest2);
        assert rest2[1..] == [];
        assert !StartsWithAny(t, rest2[1..]);
        assert StartsWith(t, rest2[0]);
        assert t[0] == '用';
      }
    }
  }

  /** The opener pattern read literally, with the backtracking of `#{1,3}`
      and `\s*`: a run of one to three '#' ending at `k`, a run of whitespace
      from `k` to `m`, and a label from `m` on. */
  predicate OpenerMatchAt(line: string, k: nat, m: nat) {
    && 1 <= k <= 3 && k <= m <= |line|
    && (forall i :: 0 <= i < k ==> line[i] == '#')
    && AllSpace(line[k..m])
    && StartsWithLabel(line[m..])
  }

  /** The opener test accepts exactly the lines the literal pattern matches. */
  lemma OpenerPattern(line: string)
    ensures IsOpener(line) <==> exists k, m :: OpenerMatchAt(line, k, m)
  {
    if IsOpener(line) {
      var k, m := OpenerWitness(line);
    }
    if exists k, m :: OpenerMatchAt(line, k, m) {
      var k, m :| OpenerMatchAt(line, k, m);
      OpenerFromMatch(line, k, m);
    }
  }

  lemma OpenerWitness(line: string) returns (k: nat, m: nat)
    requires IsOpener(line)
    ensures OpenerMatchAt(line, k, m)
  {
    k := HashRun(line);
    HashRunHashes(line);
    m := k + SpaceRun(line, k);
  }

  lemma OpenerFromMatch(line: string, k: nat, m: nat)
    requires OpenerMatchAt(line, k, m)
    ensures IsOpener(line)
  {
    OpenerRun(line, k, m);
    LabelStart(line[m..]);
    assert line[m..][0] == line[m];
    SpaceRunExact(line, k, m - k);
  }

  /** The '#' run of a literal opener match is the whole '#' run of the line. */
  lemma OpenerRun(line: string, k: nat, m: nat)
    requires 1 <= k <= m <= |line|
    requires forall i :: 0 <= i < k ==> line[i] == '#'
    requires AllSpace(line[k..m])
    requires StartsWithLabel(line[m..])
    ensures HashRun(line) == k
  {
    var n := HashRun(line);
    LabelStart(line[m..]);
    var c := if m == k then line[m..][0] else line[k..m][0];
    assert c == line[k];
    assert c != '#';
    if n > k {
      HashRunHashes(line);
    }
  }

  /** Where the capture of `/^[-*]\s+(.+)$/` starts in a line with its
      marker at 0: the greedy `\s+` takes the whole run of whitespace after
      the marker, but gives its last character back when nothing else is
      left, since `.+` needs one. */
  function CaptureStart(line: string): (k: nat)
    requires |line| >= 2
    ensures 1 <= k < |line| && AllSpace(line[1..k])
  {
    var w := SpaceRun(line, 1);
    if 1 + w < |line| then 1 + w
    else
      assert line[1..|line| - 1] == line[1..1 + w][..|line| - 2];
      |line| - 1
  }

  /** The whitespace run the regex may take is never shorter than a given
      whitespace piece after the marker that leaves a character for the
      capture. */
  lemma CaptureStartBound(line: string, j: nat)
    requires 1 <= j < |line| && AllSpace(line[1..j])
    ensures CaptureStart(line) >= j
  {
    SpaceRunAtLeast(line, 1, j - 1);
  }

  /** The capture group of `/^[-*]\s+(.+)$/` on `line`, when it matches: the
      capture must run to the end of the line without a line terminator, so
      a line with a trailing '\r' never matches. */
  function BulletCapture(line: string): Option<string> {
    if |line| < 3 || (line[0] != '-' && line[0] != '*') then None
    else
      var k := CaptureStart(line);
      if k >= 2 && SingleLine(line[k..]) then Some(line[k..]) else None
  }

  /** The bullet pattern read literally: a marker, a non-empty whitespace
      run up to `k`, and from `k` a non-empty tail free of line terminators. */
  predicate BulletMatchAt(line: string, k: nat) {
    && 2 <= k < |line|
    && (line[0] == '-' || line[0] == '*')
    && AllSpace(line[1..k])
    && SingleLine(line[k..])
  }

  /** The bullet test matches exactly the lines the literal pattern matches,
      and whichever split the regex settles on, the trimmed capture is the
      trimmed text after the marker. */
  lemma BulletPattern(line: string)
    ensures BulletCapture(line).Some? <==> exists k :: BulletMatchAt(line, k)
    ensures BulletCapture(line).Some? ==> Trim(BulletCapture(line).value) == Trim(line[1..])
  {
    if BulletCapture(line).Some? {
      var k := BulletWitness(line);
      BulletTrim(line, k);
    }
    if exists k :: BulletMatchAt(line, k) {
      var k :| BulletMatchAt(line, k);
      BulletFromMatch(line, k);
    }
  }

  /** The whitespace after the marker does not change the trimmed text. */
  lemma BulletTrim(line: string, k: nat)
    requires 1 <= k <= |line| && AllSpace(line[1..k])
    ensures Trim(line[k..]) == Trim(line[1..])
  {
    assert line[1..][..k - 1] == line[1..k];
    TrimDropSpace(line[1..], k - 1);
    assert line[1..][k - 1..] == line[k..];
  }

  lemma BulletWitness(line: string) returns (k: nat)
    requires BulletCapture(line).Some?
    ensures BulletMatchAt(line, k) && BulletCapture(line).value == line[k..]
  {
    k := CaptureStart(line);
  }

  lemma SingleLineSuffix(s: string, a: nat, b: nat)
    requires a <= b <= |s| && SingleLine(s[a..])
    ensures SingleLine(s[b..])
  {
    assert forall i :: 0 <= i < |s[b..]| ==> s[b..][i] == s[a..][i + b - a];
  }

  lemma BulletFromMatch(line: string, k: nat)
    requires BulletMatchAt(line, k)
    ensures BulletCapture(line).Some?
  {
    CaptureStartBound(line, k);
    SingleLineSuffix(line, k, CaptureStart(line));
  }

  /** What a line means to the ingredient scanner, tested in the scanner's
      order: an opener, else a heading (which ends an open section), else a
      bullet with its trimmed capture, else nothing. */
  datatype LineKind = Opener | Closer | Item(text: string) | Ignored

  function Classify(line: string): LineKind {
    if IsOpener(line) then Opener
    else if IsHeading(line) then Closer
    else match BulletCapture(line)
      case Some(c) => Item(Trim(c))
      case None => Ignored
  }

  function ClassifyAll(lines: seq<string>): (kinds: seq<LineKind>)
    ensures |kinds| == |lines|
    ensures forall i :: 0 <= i < |lines| ==> kinds[i] == Classify(lines[i])
  {
    seq(|lines|, i requires 0 <= i < |lines| => Classify(lines[i]))
  }

  lemma ClassifyAllAppend(x: seq<string>, y: seq<string>)
    ensures ClassifyAll(x + y) == ClassifyAll(x) + ClassifyAll(y)
  {
    var l := ClassifyAll(x + y);
    var r := ClassifyAll(x) + ClassifyAll(y);
    forall i | 0 <= i < |l| ensures l[i] == r[i] {
      if i < |x| {
        assert (x + y)[i] == x[i];
      } else {
        assert (x + y)[i] == y[i - |x|];
      }
    }
  }

  /** The state of the ingredient scan: whether an ingredients section is
      open, and the items collected so far. */
  datatype Scan = Scan(open: bool, items: seq<string>)

  /** One line of the scan: an opener opens (or keeps open) a section; a
      heading closes an open one; inside a section a bullet adds its item;
      everything else leaves the scan as it is. */
  function ScanLine(s: Scan, kind: LineKind): Scan {
    match kind
    case Opener => Scan(true, s.items)
    case Closer => if s.open then Scan(false, s.items) else s
    case Item(x) => if s.open then Scan(true, s.items + [x]) else s
    case Ignored => s
  }

  /** A section is open after `kinds` when some opener occurs and no closing
      heading follows it. */
  ghost predicate OpenAfter(kinds: seq<LineKind>) {
    exists j :: 0 <= j < |kinds| && kinds[j].Opener? &&
      forall k :: j < k < |kinds| ==> !kinds[k].Closer?
  }

  /** The items the section structure calls for: every bullet item that
      occurs while a section is open, in document order. */
  ghost function SectionItems(kinds: seq<LineKind>): seq<string> {
    if kinds == [] then []
    else
      var init := kinds[..|kinds| - 1];
      var kind := kinds[|kinds| - 1];
      SectionItems(init) + (if OpenAfter(init) && kind.Item? then [kind.text] else [])
  }

  lemma OpenAfterStep(init: seq<LineKind>, kind: LineKind)
    ensures OpenAfter(init + [kind]) <==> kind.Opener? || (OpenAfter(init) && !kind.Closer?)
  {
    var kinds := init + [kind];
    if OpenAfter(kinds) && !kind.Opener? {
      var j :| 0 <= j < |kinds| && kinds[j].Opener? &&
               forall k :: j < k < |kinds| ==> !kinds[k].Closer?;
      assert j < |init|;
      assert !kinds[|init|].Closer?;
      assert forall k :: j < k < |init| ==> kinds[k] == init[k];
    }
    if kind.Opener? {
      assert kinds[|init|].Opener?;
    } else if OpenAfter(init) && !kind.Closer? {
      var j :| 0 <= j < |init| && init[j].Opener? &&
               forall k :: j < k < |init| ==> !init[k].Closer?;
      assert kinds[j] == init[j];
      assert forall k :: j < k < |kinds| ==> !kinds[k].Closer?;
    }
  }

  /** The scan after the given lines, one line at a time. */
  function ScanLines(kinds: seq<LineKind>): Scan {
    if kinds == [] then Scan(false, [])
    else ScanLine(ScanLines(kinds[..|kinds| - 1]), kinds[|kinds| - 1])
  }

  /** The scan's flag agrees with the section structure, and its items are
      exactly the section items. */
  lemma {:induction false} ScanLinesSpec(kinds: seq<LineKind>)
    ensures ScanLines(kinds).open <==> OpenAfter(kinds)
    ensures ScanLines(kinds).items == SectionItems(kinds)
  {
    if kinds != [] {
      var init := kinds[..|kinds| - 1];
      var kind := kinds[|kinds| - 1];
      ScanLinesSpec(init);
      OpenAfterStep(init, kind);
      assert init + [kind] == kinds;
    }
  }

  /** `extractIngredients`: the items of the ingredients sections of a text. */
  function ExtractIngredients(text: string): (items: seq<string>)
    ensures |items| <= |Split(text)|
  {
    ScanLinesLength(ClassifyAll(Split(text)));
    ScanLines(ClassifyAll(Split(text))).items
  }

  /** Each line adds at most one item. */
  lemma {:induction false} ScanLinesLength(kinds: seq<LineKind>)
    ensures |ScanLines(kinds).items| <= |kinds|
  {
    if kinds != [] {
      ScanLinesLength(kinds[..|kinds| - 1]);
    }
  }

  /** Without any opener there are no items, whatever bullets appear. */
  lemma {:induction false} NoOpenerNoItems(kinds: seq<LineKind>)
    requires forall i :: 0 <= i < |kinds| ==> !kinds[i].Opener?
    ensures ScanLines(kinds) == Scan(false, [])
  {
    if kinds != [] {
      NoOpenerNoItems(kinds[..|kinds| - 1]);
    }
  }

  /** A line is classified as an opener exactly when it matches the opener
      pattern. */
  lemma ClassifyOpener(line: string)
    ensures Classify(line).Opener? <==> IsOpener(line)
  {
  }

  /** A text none of whose lines matches the opener pattern has no
      ingredients, even when it has bullet lists elsewhere. */
  lemma NoIngredientsWithoutOpener(text: string)
    requires forall i :: 0 <= i < |Split(text)| ==> !IsOpener(Split(text)[i])
    ensures ExtractIngredients(text) == []
  {
    var lines := Split(text);
    var kinds := ClassifyAll(lines);
    forall i | 0 <= i < |kinds|
      ensures !kinds[i].Opener?
    {
      ClassifyOpener(lines[i]);
    }
    NoOpenerNoItems(kinds);
  }

  /** A closed scan stays closed and collects nothing over lines that hold
      no opener. */
  lemma {:induction false} StaysClosed(p: seq<LineKind>, b: seq<LineKind>)
    requires !ScanLines(p).open
    requires forall i :: 0 <= i < |b| ==> !b[i].Opener?
    ensures ScanLines(p + b) == ScanLines(p)
  {
    if b == [] {
      assert p + b == p;
    } else {
      var b' := b[..|b| - 1];
      StaysClosed(p, b');
      assert (p + b)[..|p + b| - 1] == p + b';
    }
  }

  /** A heading that is not an opener ends the section for good when no
      opener follows it: the bullets after it contribute nothing. */
  lemma ClosedSectionExcluded(a: seq<string>, h: string, b: seq<string>)
    requires IsHeading(h) && !IsOpener(h)
    requires forall i :: 0 <= i < |b| ==> !IsOpener(b[i])
    ensures ScanLines(ClassifyAll(a + [h] + b)).items == ScanLines(ClassifyAll(a)).items
  {
    var ka := ClassifyAll(a);
    var kb := ClassifyAll(b);
    ClassifyAllAppend(a + [h], b);
    ClassifyAllAppend(a, [h]);
    assert ClassifyAll([h]) == [Closer];
    assert (ka + [Closer])[..|ka|] == ka;
    StaysClosed(ka + [Closer], kb);
  }

  /** A later opener reopens the scan whatever came before, so the sections
      of a text concatenate: the items of `a + b` are those of `a` followed
      by those of `b` when `b` starts with an opener. */
  lemma {:induction false} SectionsConcatenate(a: seq<LineKind>, b: seq<LineKind>)
    requires |b| > 0 && b[0].Opener?
    ensures ScanLines(a + b) == Scan(ScanLines(b).open, ScanLines(a).items + ScanLines(b).items)
  {
    if |b| == 1 {
      assert (a + b)[..|a|] == a;
      assert b[..0] == [];
    } else {
      var b' := b[..|b| - 1];
      var x := b[|b| - 1];
      SectionsConcatenate(a, b');
      assert (a + b)[..|a + b| - 1] == a + b';
      assert (a + b)[|a + b| - 1] == x;
      assert ScanLines(a + b) == ScanLine(ScanLines(a + b'), x);
      assert ScanLines(b) == ScanLine(ScanLines(b'), x);
    }
  }

  /** Every section item comes from an item line of the scanned lines. */
  lemma {:induction false} SectionItemsFrom(kinds: seq<LineKind>)
    ensures forall x :: x in SectionItems(kinds) ==>
      exists i :: 0 <= i < |kinds| && kinds[i] == Item(x)
  {
    if kinds != [] {
      var init := kinds[..|kinds| - 1];
      SectionItemsFrom(init);
      forall x | x in SectionItems(kinds)
        ensures exists i :: 0 <= i < |kinds| && kinds[i] == Item(x)
      {
        if x in SectionItems(init) {
          var i :| 0 <= i < |init| && init[i] == Item(x);
          assert kinds[i] == init[i];
        } else {
          assert kinds[|kinds| - 1] == Item(x);
        }
      }
    }
  }

  /** `line` is a bullet line, not a heading of either kind, whose trimmed
      capture is `x`. */
  predicate ItemLine(line: string, x: string) {
    && !IsOpener(line) && !IsHeading(line)
    && BulletCapture(line).Some? && Trim(BulletCapture(line).value) == x
  }

  /** Some line of `lines` is an item line for `x`. */
  predicate FromBullet(lines: seq<string>, x: string) {
    exists i :: 0 <= i < |lines| && ItemLine(lines[i], x)
  }

  /** Every ingredient is the trimmed capture of one of the text's bullet
      lines; a heading line, opener or not, never yields an ingredient. */
  lemma ItemsFromBullets(text: string)
    ensures forall x :: x in ExtractIngredients(text) ==> FromBullet(Split(text), x)
  {
    var lines := Split(text);
    var kinds := ClassifyAll(lines);
    ScanLinesSpec(kinds);
    SectionItemsFrom(kinds);
    forall x | x in ScanLines(kinds).items
      ensures FromBullet(lines, x)
    {
      var i :| 0 <= i < |kinds| && kinds[i] == Item(x);
      ClassifyItem(lines[i], x);
    }
  }

  lemma ClassifyItem(line: string, x: string)
    requires Classify(line) == Item(x)
    ensures ItemLine(line, x)
  {
  }

  /** An opener inside an open section keeps it open, and the items go on
      after it: the opener is tested before the closing heading test. */
  lemma OpenerInsideSection(init: seq<LineKind>, line: string)
    requires IsOpener(line)
    ensures ScanLine(ScanLines(init), Classify(line)) == Scan(true, ScanLines(init).items)
  {
  }

  /** "##材料" opens a section: the opener needs no whitespace after '#'. */
  lemma OpensWithoutSpace()
    ensures IsOpener("##材料")
  {
    var o := "##材料";
    assert HashRun(o[2..]) == 0;
    assert HashRun(o[1..]) == 1;
    assert HashRun(o) == 2;
    assert SpaceRun(o, 2) == 0;
    assert o[2..] == "材料";
    assert Lower("材料") == "材料";
    assert StartsWith("材料", Labels[1]);
  }

  /** "#作り方" is not a heading, for want of whitespace after '#', and it
      names no label. */
  lemma ClosesOnlyWithSpace()
    ensures !IsOpener("#作り方") && !IsHeading("#作り方")
    ensures BulletCapture("#作り方") == None
  {
    var c := "#作り方";
    assert c[0] == '#';
    assert HashRun(c[1..]) == 0;
    assert HashRun(c) == 1;
    assert !IsSpace(c[1]);
    assert SpaceRun(c, 1) == 0;
    assert c[1..] == "作り方";
    var t := Lower("作り方");
    assert t == "作り方";
    assert !StartsWith(t, Labels[0]) && !StartsWith(t, Labels[1]) && !StartsWith(t, Labels[2]);
    assert Labels[1..][1..][1..] == [];
  }

  /** Whitespace after the '#' run is optional for an opener and required for
      a closing heading: "##材料" opens a section while "#作り方" is neither
      an opener nor a heading, so it leaves a section open. */
  lemma HeadingSpacing()
    ensures Classify("##材料") == Opener
    ensures Classify("#作り方") == Ignored
  {
    OpensWithoutSpace();
    ClosesOnlyWithSpace();
  }
}
