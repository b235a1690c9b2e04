/** The conversion of a chat reply into HTML, one line at a time
    (`parse_structured_message` in app/utils/utils.py).

    The specification is a fold: `Step` gives the fragment one line adds and
    whether a fenced code block is open after it; `Fragments` and `FlagAfter`
    run it over the lines from left to right; `Render` joins the fragments of
    the message's lines. `ParseStructuredMessage` is the loop as written,
    including its two `endswith("<ul>\n")` tests, and is proved to compute
    `Render`: the first test always passes and the second never does. */
module StructuredMessage {
  import opened PyStrings

  const HeadingPrefix: string := "# "
  const BulletPrefix: string := "- "
  const FencePrefix: string := "```"

  const OpenList: string := "<ul>\n"
  const CloseList: string := "</ul>\n"
  const OpenCode: string := "<pre><code>\n"
  const CloseCode: string := "</code></pre>\n"

  /** The branch of the loop that handles a line. */
  datatype LineKind = Heading | Bullet | Fence | Paragraph

  /** The three prefixes begin with different characters, so at most one of
      them matches and the order of the tests does not matter. */
  function Classify(line: string): (k: LineKind)
    ensures k == Heading <==> StartsWith(line, HeadingPrefix)
    ensures k == Bullet <==> StartsWith(line, BulletPrefix)
    ensures k == Fence <==> StartsWith(line, FencePrefix)
  {
    if StartsWith(line, HeadingPrefix) then Heading
    else if StartsWith(line, BulletPrefix) then Bullet
    else if StartsWith(line, FencePrefix) then Fence
    else Paragraph
  }

  /** A fragment the loop may append: nothing, or text at least as long as
      `<ul>\n` that ends with a newline but not with `<ul>\n`. */
  predicate WellFormed(fragment: string)
  {
    fragment == []
    || (|fragment| >= |OpenList| && fragment[|fragment| - 1] == '\n' && !EndsWith(fragment, OpenList))
  }

  /** What one line adds to the HTML, and whether a code block is open after it. */
  datatype Emission = Emission(fragment: string, inCode: bool)

  /** One iteration of the loop, given whether a code block is open before the
      line. A bullet always opens a new list: the accumulated HTML never ends
      with `<ul>\n` when the bullet branch runs. */
  function Step(line: string, inCode: bool): Emission
  {
    match Classify(line)
    case Heading => Emission("<h3>" + Strip(line[2..]) + "</h3>\n", inCode)
    case Bullet => Emission(OpenList + ("<li>" + Strip(line[2..]) + "</li>\n"), inCode)
    case Fence => if inCode then Emission(CloseCode, false) else Emission(OpenCode, true)
    case Paragraph => Emission(if inCode then "" else "<p>" + Strip(line) + "</p>\n", inCode)
  }

  /** A line emits nothing exactly when it is a paragraph line inside a code
      block; whatever it emits ends with a newline and never with `<ul>\n`;
      only a fence line changes the flag. */
  lemma StepShape(line: string, inCode: bool)
    ensures var e := Step(line, inCode);
            WellFormed(e.fragment)
            && (e.fragment == [] <==> inCode && Classify(line) == Paragraph)
            && (e.inCode != inCode <==> Classify(line) == Fence)
  {
    match Classify(line)
    case Heading =>
      var front := "<h3>" + Strip(line[2..]);
      assert Step(line, inCode).fragment == front + "</h3>\n";
      WellFormedAppend(front, "</h3>\n");
    case Bullet =>
      var front := OpenList + ("<li>" + Strip(line[2..]));
      assert Step(line, inCode).fragment == front + "</li>\n";
      WellFormedAppend(front, "</li>\n");
    case Fence =>
    case Paragraph =>
      if !inCode {
        var front := "<p>" + Strip(line);
        assert Step(line, inCode).fragment == front + "</p>\n";
        WellFormedAppend(front, "</p>\n");
      }
  }

  /** A fragment that ends with a closing tag `tail` is well formed. */
  lemma WellFormedAppend(front: string, tail: string)
    requires |tail| >= |OpenList| && tail[|tail| - 1] == '\n' && !EndsWith(tail, OpenList)
    ensures WellFormed(front + tail)
  {
    EndsWithAppend(front, tail, OpenList);
  }

  /** A per-line step: from a line and the flag before it, its fragment and the flag after it. */
  type LineStep = (string, bool) -> Emission

  /** The fragments of `lines`, one per line, running `step` from the flag `inCode`. */
  function Fragments(step: LineStep, lines: seq<string>, inCode: bool): (frags: seq<string>)
    ensures |frags| == |lines|
  {
    if lines == [] then []
    else
      var e := step(lines[0], inCode);
      [e.fragment] + Fragments(step, lines[1..], e.inCode)
  }

  /** The flag after running `step` over `lines` from the flag `inCode`. */
  function FlagAfter(step: LineStep, lines: seq<string>, inCode: bool): bool
  {
    if lines == [] then inCode
    else FlagAfter(step, lines[1..], step(lines[0], inCode).inCode)
  }

  function Concat(frags: seq<string>): string
  {
    if frags == [] then "" else frags[0] + Concat(frags[1..])
  }

  /** The HTML for `message`: its lines' fragments, in order, starting outside a code block. */
  function Render(message: string): string
  {
    Concat(Fragments(Step, Split(message), false))
  }

  /** The number of fragments equal to `tag`. */
  function Count(frags: seq<string>, tag: string): nat
  {
    if frags == [] then 0
    else (if frags[0] == tag then 1 else 0) + Count(frags[1..], tag)
  }

  lemma {:induction false} ConcatAppend(x: seq<string>, y: seq<string>)
    ensures Concat(x + y) == Concat(x) + Concat(y)
    decreases |x|
  {
    if x != [] {
      assert (x + y)[0] == x[0] && (x + y)[1..] == x[1..] + y;
      ConcatAppend(x[1..], y);
      assert Concat(x + y) == x[0] + (Concat(x[1..]) + Concat(y));
    } else {
      assert x + y == y;
    }
  }

  lemma {:induction false} CountAppend(x: seq<string>, y: seq<string>, tag: string)
    ensures Count(x + y, tag) == Count(x, tag) + Count(y, tag)
    decreases |x|
  {
    if x != [] {
      assert (x + y)[0] == x[0] && (x + y)[1..] == x[1..] + y;
      CountAppend(x[1..], y, tag);
    } else {
      assert x + y == y;
    }
  }

  /** Running the lines of `a + b` is running `a`, then `b` from the flag `a` left. */
  lemma {:induction false} FragmentsAppend(step: LineStep, a: seq<string>, b: seq<string>, inCode: bool)
    ensures Fragments(step, a + b, inCode)
            == Fragments(step, a, inCode) + Fragments(step, b, FlagAfter(step, a, inCode))
    ensures FlagAfter(step, a + b, inCode) == FlagAfter(step, b, FlagAfter(step, a, inCode))
    decreases |a|
  {
    if a != [] {
      var e := step(a[0], inCode);
      assert (a + b)[0] == a[0] && (a + b)[1..] == a[1..] + b;
      FragmentsAppend(step, a[1..], b, e.inCode);
    } else {
      assert a + b == b;
    }
  }

  /** The output for `a + "\n" + b` is the output for `a` followed by the
      fragments of `b`'s lines, computed from the flag `a` left open. */
  lemma RenderAppend(a: string, b: string)
    ensures Render(a + "\n" + b)
            == Render(a) + Concat(Fragments(Step, Split(b), FlagAfter(Step, Split(a), false)))
  {
    SplitAppend(a, b);
    FragmentsAppend(Step, Split(a), Split(b), false);
    ConcatAppend(Fragments(Step, Split(a), false), Fragments(Step, Split(b), FlagAfter(Step, Split(a), false)));
  }

  /** The `k`-th fragment is what line `k` gives with the flag the lines before it left. */
  lemma {:induction false} FragmentAt(step: LineStep, lines: seq<string>, inCode: bool, k: nat)
    requires k < |lines|
    ensures Fragments(step, lines, inCode)[k] == step(lines[k], FlagAfter(step, lines[..k], inCode)).fragment
    ensures FlagAfter(step, lines[..k + 1], inCode) == step(lines[k], FlagAfter(step, lines[..k], inCode)).inCode
    decreases k
  {
    var next := step(lines[0], inCode).inCode;
    if k == 0 {
      assert lines[..1][1..] == [];
    } else {
      FragmentAt(step, lines[1..], next, k - 1);
      assert lines[..k][0] == lines[0] && lines[..k][1..] == lines[1..][..k - 1];
      assert lines[..k + 1][0] == lines[0] && lines[..k + 1][1..] == lines[1..][..k];
    }
  }

  /** A heading line gives `<h3>` around its stripped text, in or out of a code block. */
  lemma HeadingLine(message: string, k: nat)
    requires k < |Split(message)| && StartsWith(Split(message)[k], HeadingPrefix)
    ensures Fragments(Step, Split(message), false)[k] == "<h3>" + Strip(Split(message)[k][2..]) + "</h3>\n"
  {
    var lines := Split(message);
    FragmentAt(Step, lines, false, k);
    var line := lines[k];
    assert Classify(line) == Heading;
  }

  /** A bullet line opens a new list and gives one item, in or out of a code block. */
  lemma BulletLine(message: string, k: nat)
    requires k < |Split(message)| && StartsWith(Split(message)[k], BulletPrefix)
    ensures Fragments(Step, Split(message), false)[k]
            == OpenList + ("<li>" + Strip(Split(message)[k][2..]) + "</li>\n")
  {
    var lines := Split(message);
    FragmentAt(Step, lines, false, k);
    assert Classify(lines[k]) == Bullet;
  }

  /** A fence line closes the open code block or opens one, and flips the flag. */
  lemma FenceLine(message: string, k: nat)
    requires k < |Split(message)| && StartsWith(Split(message)[k], FencePrefix)
    ensures var lines := Split(message);
            var open := FlagAfter(Step, lines[..k], false);
            Fragments(Step, lines, false)[k] == (if open then CloseCode else OpenCode)
            && FlagAfter(Step, lines[..k + 1], false) == !open
  {
    var lines := Split(message);
    FragmentAt(Step, lines, false, k);
    assert Classify(lines[k]) == Fence;
  }

  /** Any other line gives a paragraph outside a code block and nothing inside one. */
  lemma ParagraphLine(message: string, k: nat)
    requires k < |Split(message)|
    requires var line := Split(message)[k];
             !StartsWith(line, HeadingPrefix) && !StartsWith(line, BulletPrefix)
             && !StartsWith(line, FencePrefix)
    ensures var lines := Split(message);
            Fragments(Step, lines, false)[k]
            == if FlagAfter(Step, lines[..k], false) then "" else "<p>" + Strip(lines[k]) + "</p>\n"
  {
    var lines := Split(message);
    FragmentAt(Step, lines, false, k);
    assert Classify(lines[k]) == Paragraph;
  }

  /** Every fence line either opens or closes a block and nothing else emits
      those tags, so the openings exceed the closings by one exactly when a
      block is still open, and by nothing otherwise. */
  lemma {:induction false} FenceBalance(lines: seq<string>, inCode: bool)
    ensures Count(Fragments(Step, lines, inCode), OpenCode) + (if inCode then 1 else 0)
            == Count(Fragments(Step, lines, inCode), CloseCode) + (if FlagAfter(Step, lines, inCode) then 1 else 0)
    decreases |lines|
  {
    if lines != [] {
      var e := Step(lines[0], inCode);
      StepTags(lines[0], inCode);
      FenceBalance(lines[1..], e.inCode);
    }
  }

  /** Only a fence line emits a code-block tag: the opening one when no block is
      open, the closing one when a block is open. */
  lemma StepTags(line: string, inCode: bool)
    ensures var e := Step(line, inCode);
            (e.fragment == OpenCode <==> Classify(line) == Fence && !inCode)
            && (e.fragment == CloseCode <==> Classify(line) == Fence && inCode)
            && (e.inCode != inCode <==> Classify(line) == Fence)
  {
    match Classify(line)
    case Heading =>
      var frag := "<h3>" + Strip(line[2..]) + "</h3>\n";
      assert Step(line, inCode).fragment == frag;
      TagDiffers(frag, 1);
    case Bullet =>
      var frag := OpenList + ("<li>" + Strip(line[2..]) + "</li>\n");
      assert Step(line, inCode).fragment == frag;
      TagDiffers(frag, 1);
    case Fence =>
    case Paragraph =>
      if !inCode {
        var frag := "<p>" + Strip(line) + "</p>\n";
        assert Step(line, inCode).fragment == frag;
        TagDiffers(frag, 2);
      }
  }

  /** A text that differs from both code-block tags at position 1 or 2 is neither. */
  lemma TagDiffers(frag: string, i: nat)
    requires i < 3 <= |frag| && frag[i] != OpenCode[i] && frag[1] != CloseCode[1]
    ensures frag != OpenCode && frag != CloseCode
  {
  }

  /** After any message, the code blocks opened number the code blocks closed,
      plus one exactly when a block is left open: nothing closes it. */
  lemma RenderFenceBalance(message: string)
    ensures var frags := Fragments(Step, Split(message), false);
            Count(frags, OpenCode)
            == Count(frags, CloseCode) + (if FlagAfter(Step, Split(message), false) then 1 else 0)
  {
    FenceBalance(Split(message), false);
  }

  lemma EndsWithAppend(x: string, y: string, t: string)
    requires |y| >= |t|
    ensures EndsWith(x + y, t) == EndsWith(y, t)
  {
    assert (x + y)[|x + y| - |t|..] == y[|y| - |t|..];
  }

  /** Joining well-formed fragments gives a well-formed fragment. */
  lemma {:induction false} ConcatWellFormed(frags: seq<string>)
    requires forall k :: 0 <= k < |frags| ==> WellFormed(frags[k])
    ensures WellFormed(Concat(frags))
    decreases |frags|
  {
    if frags != [] {
      ConcatWellFormed(frags[1..]);
      var rest := Concat(frags[1..]);
      if rest != [] {
        EndsWithAppend(frags[0], rest, OpenList);
      }
    }
  }

  lemma {:induction false} FragmentsWellFormed(step: LineStep, lines: seq<string>, inCode: bool)
    requires forall line, flag :: WellFormed(step(line, flag).fragment)
    ensures forall k :: 0 <= k < |lines| ==> WellFormed(Fragments(step, lines, inCode)[k])
    decreases |lines|
  {
    if lines != [] {
      FragmentsWellFormed(step, lines[1..], step(lines[0], inCode).inCode);
    }
  }

  /** The output is never empty (the first line always emits something, even
      the empty message gives `<p></p>\n`), it ends with a newline, and it
      never ends with `<ul>\n`, so the closing `</ul>\n` is never appended. */
  lemma RenderShape(message: string)
    ensures var html := Render(message);
            html != [] && html[|html| - 1] == '\n' && !EndsWith(html, OpenList)
  {
    var lines := Split(message);
    var frags := Fragments(Step, lines, false);
    forall line, flag ensures WellFormed(Step(line, flag).fragment) {
      StepShape(line, flag);
    }
    FragmentsWellFormed(Step, lines, false);
    StepShape(lines[0], false);
    ConcatWellFormed(frags);
    assert frags[0] == Step(lines[0], false).fragment;
  }

  /** The empty message is one empty line, an empty paragraph. */
  lemma RenderEmpty()
    ensures Render("") == "<p></p>\n"
  {
    var e := Step("", false);
    assert Strip("") == "" by {
      assert TrimStart("") == "";
    }
    assert Fragments(Step, [""], false) == [e.fragment] + Fragments(Step, [], e.inCode);
    assert Concat([e.fragment]) == e.fragment + Concat([]);
  }

  /** A message that opens a code block and never closes it: the output holds
      the opening tag and nothing closes it. */
  lemma RenderUnclosedFence()
    ensures Render("```") == OpenCode
  {
    var line := "```";
    assert Split(line) == [line] by {
      SplitNoNewline(line);
    }
    assert StartsWith(line, FencePrefix);
    var e := Step(line, false);
    assert Fragments(Step, [line], false) == [e.fragment] + Fragments(Step, [], e.inCode);
    assert Concat([e.fragment]) == e.fragment + Concat([]);
  }

  /** `parse_structured_message`: the loop over the message's lines with the
      accumulated HTML and the in-code-block flag, then the closing of a list
      left open. The output is `Render(message)`: the closing never happens. */
  method ParseStructuredMessage(message: string) returns (html: string)
    ensures html == Render(message)
  {
    var lines := Split(message);
    html := "";
    var inCodeBlock := false;
    for i := 0 to |lines|
      invariant html == Concat(Fragments(Step, lines[..i], false))
      invariant inCodeBlock == FlagAfter(Step, lines[..i], false)
      invariant WellFormed(html)
    {
      ghost var e := Step(lines[i], inCodeBlock);
      assert !EndsWith(html, OpenList);
      html, inCodeBlock := AppendLine(html, inCodeBlock, lines[i]);
      NextLine(lines, i, e);
    }
    assert lines[..|lines|] == lines;
    if EndsWith(html, OpenList) {
      html := html + CloseList;
    }
  }

  /** One pass of the loop body: the branch for `line` appends its fragment to
      `html` and updates the flag. A bullet adds `<ul>\n` only when `html` does
      not already end with it. */
  method AppendLine(html: string, inCodeBlock: bool, line: string)
    returns (html': string, inCodeBlock': bool)
    ensures inCodeBlock' == Step(line, inCodeBlock).inCode
    ensures !EndsWith(html, OpenList) ==> html' == html + Step(line, inCodeBlock).fragment
    ensures EndsWith(html, OpenList) ==>
              html' == html + (if Classify(line) == Bullet then Step(line, inCodeBlock).fragment[|OpenList|..]
                               else Step(line, inCodeBlock).fragment)
  {
    html', inCodeBlock' := html, inCodeBlock;
    if StartsWith(line, HeadingPrefix) {
      html' := html' + ("<h3>" + Strip(line[2..]) + "</h3>\n");
    } else if StartsWith(line, BulletPrefix) {
      if !EndsWith(html', OpenList) {
        html' := html' + OpenList;
      }
      html' := html' + ("<li>" + Strip(line[2..]) + "</li>\n");
    } else if StartsWith(line, FencePrefix) {
      if inCodeBlock' {
        html' := html' + CloseCode;
        inCodeBlock' := false;
      } else {
        html' := html' + OpenCode;
        inCodeBlock' := true;
      }
    } else {
      if !inCodeBlock' {
        html' := html' + ("<p>" + Strip(line) + "</p>\n");
      }
    }
  }

  /** The loop invariant of `ParseStructuredMessage` survives appending the
      fragment `e` of line `i`. */
  lemma NextLine(lines: seq<string>, i: nat, e: Emission)
    requires i < |lines| && e == Step(lines[i], FlagAfter(Step, lines[..i], false))
    ensures Concat(Fragments(Step, lines[..i], false)) + e.fragment
            == Concat(Fragments(Step, lines[..i + 1], false))
    ensures e.inCode == FlagAfter(Step, lines[..i + 1], false)
    ensures WellFormed(Concat(Fragments(Step, lines[..i], false)))
            ==> WellFormed(Concat(Fragments(Step, lines[..i], false)) + e.fragment)
  {
    var before := Concat(Fragments(Step, lines[..i], false));
    StepShape(lines[i], FlagAfter(Step, lines[..i], false));
    FragmentsAppend(Step, lines[..i], [lines[i]], false);
    assert lines[..i + 1] == lines[..i] + [lines[i]];
    assert Fragments(Step, [lines[i]], FlagAfter(Step, lines[..i], false)) == [e.fragment] by {
      assert [lines[i]][0] == lines[i] && [lines[i]][1..] == [];
    }
    ConcatAppend(Fragments(Step, lines[..i], false), [e.fragment]);
    assert Concat([e.fragment]) == e.fragment by {
      assert [e.fragment][1..] == [];
    }
    if e.fragment != [] {
      EndsWithAppend(before, e.fragment, OpenList);
    } else {
      assert before + e.fragment == before;
    }
  }
}
