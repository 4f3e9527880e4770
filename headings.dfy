/**
 * Which headings the doc parser sees in the (kludged) data, and the outline
 * it builds from them.
 *
 * The parser reads the data token by token. A `<` token followed by the word
 * token `h1`, `h2` or `h3` (either case of `h`) starts a heading when the tag
 * is a complete piece of markup and a closing `</hN` with the same digit
 * follows; the heading's name is every byte between the tag's `>` and that
 * closing tag, raw. Scanning resumes at the closing tag. When the tag is not
 * such a heading, scanning resumes just after the `<`.
 */
module Headings {
  import opened Bytes
  import opened Scanner
  import opened Sections

  /** `</h` or `</H` followed by `digit` starts at `k`. */
  predicate ClosingTagAt(s: seq<byte>, k: nat, digit: byte)
    requires k + 4 <= |s|
  {
    s[k] == LT && s[k + 1] == SLASH && IsHeadingLetter(s[k + 2]) && s[k + 3] == digit
  }

  /** Position of the first closing tag for heading `digit` that starts at or after `i` and ends by `lim`. */
  function FindHeadingClose(s: seq<byte>, i: nat, lim: nat, digit: byte): (r: Option<nat>)
    requires i <= lim <= |s|
    ensures r.Some? ==> i <= r.value && r.value + 4 <= lim && ClosingTagAt(s, r.value, digit)
    ensures r.Some? ==> forall k :: i <= k < r.value ==> !ClosingTagAt(s, k, digit)
    ensures r.None? ==> forall k :: i <= k && k + 4 <= lim ==> !ClosingTagAt(s, k, digit)
    decreases lim - i
  {
    if i + 4 > lim then None
    else if ClosingTagAt(s, i, digit) then Some(i)
    else FindHeadingClose(s, i + 1, lim, digit)
  }

  /** The word token `h1`, `h2` or `h3` (either case of `h`) spans [b, e). */
  predicate HeadingWord(s: seq<byte>, b: nat, e: nat)
    requires b <= e <= |s|
  {
    e == b + 2 && IsHeadingLetter(s[b]) && DIGIT_1 <= s[b + 1] <= DIGIT_3
  }

  /** The digit of the tag of a heading at `depth`: `1` for the root, `2` for a major, `3` for a minor section. */
  function DepthDigit(depth: nat): byte
    requires depth <= MINOR
  {
    DIGIT_1 + depth as byte
  }

  /** A heading found at a `<`: the heading, where its name starts, and where its closing tag starts. */
  datatype Found = Found(heading: Heading, nameStart: nat, resume: nat)

  /** The heading whose opening tag starts with the `<` at `b`, if there is one. */
  function HeadingAt(s: seq<byte>, b: nat, lim: nat): (r: Option<Found>)
    requires b < lim <= |s|
    ensures r.Some? ==> s[b] == LT && r.value.heading.start == b && r.value.heading.depth <= MINOR
    ensures r.Some? ==> b < r.value.nameStart <= r.value.resume && r.value.resume + 4 <= lim
  {
    if s[b] != LT then None
    else
      match NextToken(s, b + 1, lim)
      case EndOfInput => None
      case Token(wb, we) =>
        if !HeadingWord(s, wb, we) then None
        else
          match MarkupEnd(s, b, lim)
          case None => None
          case Some(m) =>
            match FindHeadingClose(s, m, lim, s[wb + 1])
            case None => None
            case Some(c) => Some(Found(Heading(s[m..c], b, (s[wb + 1] - DIGIT_1) as nat), m, c))
  }

  /**
   * A heading's opening tag is one piece of markup ending in `>`, and its
   * name is every byte from there up to the first closing tag with the
   * same digit, raw: whitespace and character references included.
   */
  lemma HeadingAtIsRaw(s: seq<byte>, b: nat, lim: nat)
    requires b < lim <= |s| && HeadingAt(s, b, lim).Some?
    ensures var f := HeadingAt(s, b, lim).value;
            && IsMarkup(s, b, f.nameStart) && s[f.nameStart - 1] == GT
            && f.heading.name == s[f.nameStart..f.resume]
            && ClosingTagAt(s, f.resume, DepthDigit(f.heading.depth))
            && forall k :: f.nameStart <= k < f.resume ==> !ClosingTagAt(s, k, DepthDigit(f.heading.depth))
  {
    var w := NextToken(s, b + 1, lim);
    assert DepthDigit(HeadingAt(s, b, lim).value.heading.depth) == s[w.start + 1];
  }

  /** The headings met while scanning from `i`, in the order the parser opens them. */
  function HeadingsFrom(s: seq<byte>, i: nat, lim: nat): (hs: seq<Heading>)
    requires i <= lim <= |s|
    ensures forall t :: 0 <= t < |hs| ==> i <= hs[t].start < lim
    ensures Increasing(hs)
    decreases lim - i
  {
    match NextToken(s, i, lim)
    case EndOfInput => []
    case Token(b, e) =>
      if s[b] == LT then
        match HeadingAt(s, b, lim)
        case Some(f) =>
          var rest := HeadingsFrom(s, f.resume, lim);
          PrependHeading(f.heading, rest, i, f.resume, lim);
          [f.heading] + rest
        case None => HeadingsFrom(s, e, lim)
      else HeadingsFrom(s, e, lim)
  }

  lemma PrependHeading(h: Heading, rest: seq<Heading>, i: nat, j: nat, lim: nat)
    requires i <= h.start < j && h.start < lim && Increasing(rest)
    requires forall t :: 0 <= t < |rest| ==> j <= rest[t].start < lim
    ensures Increasing([h] + rest)
    ensures forall t :: 0 <= t < |[h] + rest| ==> i <= ([h] + rest)[t].start < lim
  {
    var hs := [h] + rest;
    assert forall t :: 1 <= t < |hs| ==> hs[t] == rest[t - 1];
  }

  /** One step of the scan: what follows from the token read at `i`. */
  lemma HeadingsStep(s: seq<byte>, i: nat, lim: nat)
    requires i <= lim <= |s| && NextToken(s, i, lim).Token?
    ensures var t := NextToken(s, i, lim);
            var f := if s[t.start] == LT then HeadingAt(s, t.start, lim) else None;
            HeadingsFrom(s, i, lim) == if f.Some? then [f.value.heading] + HeadingsFrom(s, f.value.resume, lim)
                                       else HeadingsFrom(s, t.end, lim)
  {
  }

  /**
   * After the token read at `i` the parser has either opened the heading
   * that starts there and moved to its closing tag, or moved past the token;
   * either way the headings still to come finish the same outline.
   */
  lemma ScanStepFold(s: seq<byte>, i: nat, lim: nat, o: Outline, o2: Outline, j: nat)
    requires i <= lim <= |s| && StackInRange(o) && NextToken(s, i, lim).Token?
    requires var t := NextToken(s, i, lim);
             var f := if s[t.start] == LT then HeadingAt(s, t.start, lim) else None;
             && (f.Some? ==> j == f.value.resume && o2 == Open(o, f.value.heading))
             && (f.None? ==> j == t.end && o2 == o)
    ensures i < j <= lim && StackInRange(o2)
    ensures FoldHeadings(o2, HeadingsFrom(s, j, lim)) == FoldHeadings(o, HeadingsFrom(s, i, lim))
  {
    HeadingsStep(s, i, lim);
    var t := NextToken(s, i, lim);
    if s[t.start] == LT && HeadingAt(s, t.start, lim).Some? {
      var f := HeadingAt(s, t.start, lim).value;
      FoldCons(o, f.heading, HeadingsFrom(s, f.resume, lim));
    }
  }

  /** `h` is the heading of `s` whose tag starts at `h.start`. */
  ghost predicate IsHeadingOf(s: seq<byte>, lim: nat, h: Heading)
    requires lim <= |s|
  {
    h.start < lim && HeadingAt(s, h.start, lim).Some? && HeadingAt(s, h.start, lim).value.heading == h
  }

  /** Every heading the scan reports is a heading of the data at its own offset. */
  lemma {:induction false} HeadingsAreHeadings(s: seq<byte>, i: nat, lim: nat)
    requires i <= lim <= |s|
    ensures forall t :: 0 <= t < |HeadingsFrom(s, i, lim)| ==> IsHeadingOf(s, lim, HeadingsFrom(s, i, lim)[t])
    decreases lim - i
  {
    match NextToken(s, i, lim)
    case EndOfInput =>
    case Token(b, e) =>
      if s[b] == LT {
        match HeadingAt(s, b, lim)
        case Some(f) =>
          HeadingsAreHeadings(s, f.resume, lim);
          var hs := HeadingsFrom(s, i, lim);
          assert hs == [f.heading] + HeadingsFrom(s, f.resume, lim);
          assert IsHeadingOf(s, lim, f.heading);
        case None =>
          HeadingsAreHeadings(s, e, lim);
      } else {
        HeadingsAreHeadings(s, e, lim);
      }
  }

  /** The scan's progress keeps the tree well formed and every section before the cursor. */
  lemma ScanStepInv(s: seq<byte>, i: nat, lim: nat, o: Outline, o2: Outline, j: nat)
    requires i <= lim <= |s| && Inv(o) && StartsBelow(o.secs, i) && NextToken(s, i, lim).Token?
    requires var t := NextToken(s, i, lim);
             var f := if s[t.start] == LT then HeadingAt(s, t.start, lim) else None;
             && (f.Some? ==> j == f.value.resume && o2 == Open(o, f.value.heading))
             && (f.None? ==> j == t.end && o2 == o)
    ensures Inv(o2) && StartsBelow(o2.secs, j)
  {
    var t := NextToken(s, i, lim);
    if s[t.start] == LT && HeadingAt(s, t.start, lim).Some? {
      var f := HeadingAt(s, t.start, lim).value;
      OpenLater(o, f.heading, i, j);
    } else {
      StartsBelowMono(o.secs, i, j);
    }
  }

  lemma StartsBelowMono(secs: seq<Section>, x: nat, y: nat)
    requires StartsBelow(secs, x) && x <= y
    ensures StartsBelow(secs, y)
  {
  }

  /** Opening a heading that starts at or after `x` keeps the invariant, with every section before `y`. */
  lemma OpenLater(o: Outline, h: Heading, x: nat, y: nat)
    requires Inv(o) && StartsBelow(o.secs, x) && x <= h.start < y
    ensures Inv(Open(o, h)) && StartsBelow(Open(o, h).secs, y)
  {
    StartsBelowMono(o.secs, x, h.start);
    OpenKeepsInv(o, h);
    StartsBelowMono(Open(o, h).secs, h.start + 1, y);
  }

  /** The section tree of a whole buffer, as -parseCurrentFile leaves it: the stack is empty. */
  function BuildOutline(s: seq<byte>): (o: Outline)
    ensures o.stack == []
  {
    Finish(FoldHeadings(Empty, HeadingsFrom(s, 0, |s|)), |s|)
  }

  /** The scan of the whole buffer meets an h1 heading. */
  ghost predicate HasH1(s: seq<byte>)
  {
    HasRootHeading(HeadingsFrom(s, 0, |s|))
  }

  /** The buffer has a root section exactly when the scan meets an h1 heading. */
  lemma RootIffH1(s: seq<byte>)
    ensures BuildOutline(s).secs != [] <==> HasH1(s)
  {
    FoldRootIff(Empty, HeadingsFrom(s, 0, |s|));
  }

  /**
   * The outline of any buffer is a finished tree: one root, at most three
   * levels, complete ordered child lists, ranges inside the buffer, each
   * range ending where the next section at its depth or shallower starts.
   * Headings the tree ignores (Sections.AcceptsIff) end no range.
   */
  lemma BuildOutlineIsTree(s: seq<byte>)
    ensures Finished(BuildOutline(s).secs, |s|)
  {
    var hs := HeadingsFrom(s, 0, |s|);
    FoldKeepsInv(Empty, hs, |s|);
    FinishIsFinished(FoldHeadings(Empty, hs), |s|);
  }

  /** Every section is a heading of the buffer at its own offset, named by the raw bytes between its tags. */
  lemma SectionsAreHeadings(s: seq<byte>)
    ensures forall i :: 0 <= i < |BuildOutline(s).secs| ==>
              var sec := BuildOutline(s).secs[i];
              IsHeadingOf(s, |s|, Heading(sec.name, sec.start, sec.depth))
  {
    var hs := HeadingsFrom(s, 0, |s|);
    var o := FoldHeadings(Empty, hs);
    HeadingsAreHeadings(s, 0, |s|);
    FoldFromHeadings(Empty, hs, h => IsHeadingOf(s, |s|, h));
    var secs := BuildOutline(s).secs;
    forall i | 0 <= i < |secs|
      ensures IsHeadingOf(s, |s|, Heading(secs[i].name, secs[i].start, secs[i].depth))
    {
      assert Kept(o.secs[i], secs[i]);
      assert IsHeadingOf(s, |s|, Heading(o.secs[i].name, o.secs[i].start, o.secs[i].depth));
    }
  }

  /** The search for a heading's closing tag. */
  method SearchHeadingClose(s: seq<byte>, i: nat, lim: nat, digit: byte) returns (r: Option<nat>)
    requires i <= lim <= |s|
    ensures r == FindHeadingClose(s, i, lim, digit)
  {
    var k := i;
    while k + 4 <= lim && !ClosingTagAt(s, k, digit)
      invariant i <= k
      invariant k <= lim
      invariant FindHeadingClose(s, k, lim, digit) == FindHeadingClose(s, i, lim, digit)
      decreases lim - k
    {
      k := k + 1;
    }
    r := if k + 4 <= lim then Some(k) else None;
  }
}
