/**
 * AKDocParser: the parser object, its cursor over the data, its token
 * buffer `_token`, its section stack and the root section of the file it
 * parsed last. Each method is proved against the functions of Scanner,
 * Headings, Sections and Kludge.
 */
module DocParsing {
  import opened Bytes
  import opened Scanner
  import opened Kludge
  import opened Sections
  import opened Headings

  /** A recorded root section is the first section of the arena, and it is an h1. */
  predicate RootIsFirst(root: Option<nat>, secs: seq<Section>)
  {
    root.Some? ==> root.value == 0 && 0 < |secs| && secs[0].depth == ROOT
  }

  class DocParser {
    /** The bytes of the file as read; section offsets are valid in these. */
    var original: seq<byte>
    /** The bytes being scanned: the kludged copy of `original` for Tiger docs, or `original`. */
    var data: seq<byte>
    /** `_current`: the scan cursor. */
    var current: nat
    /** End of the bytes being scanned. */
    var limit: nat
    /** `_token`: the most recently parsed token, `tokenLen` bytes long. */
    const token: array<byte>
    var tokenLen: nat
    /** Offset in `data` where the most recently parsed token starts. */
    var tokenStart: nat
    /** The sections of the current file and `_sectionStack`, as indices into them. */
    var sections: seq<Section>
    var sectionStack: seq<nat>
    /** `_rootSectionOfCurrentFile`: index 0 after a successful parse. */
    var rootSectionOfCurrentFile: Option<nat>

    ghost predicate Valid()
      reads this
    {
      token.Length == TokenBufferSize && tokenLen <= MaxTokenLen
      && current <= limit <= |data|
      && StackInRange(Outline(sections, sectionStack))
      && RootIsFirst(rootSectionOfCurrentFile, sections)
    }

    /** While the headings are read: the tree and stack are well formed and every section starts before the cursor. */
    ghost predicate Building()
      reads this
    {
      Inv(Outline(sections, sectionStack)) && StartsBelow(sections, current)
    }

    /** The text of the most recently parsed token. */
    ghost function TokenBytes(): seq<byte>
      reads this, token
      requires Valid()
    {
      token[..tokenLen]
    }

    constructor ()
      ensures Valid() && fresh(token)
      ensures original == [] && data == [] && current == 0 && limit == 0 && tokenLen == 0
      ensures sections == [] && sectionStack == [] && rootSectionOfCurrentFile == None
    {
      token := new byte[TokenBufferSize];
      original, data := [], [];
      current, limit, tokenLen, tokenStart := 0, 0, 0, 0;
      sections, sectionStack := [], [];
      rootSectionOfCurrentFile := None;
    }

    /**
     * -parseToken: skips whitespace and consumes one token, leaving its text
     * (cut to the buffer) in `_token` and the cursor just after it. Returns
     * false, with the cursor at the end, when only whitespace is left.
     */
    method ParseToken() returns (found: bool)
      requires Valid()
      modifies this`current, this`tokenLen, this`tokenStart, token
      ensures Valid()
      ensures var t := NextToken(data, old(current), limit);
              && found == t.Token?
              && (found ==> tokenStart == t.start && current == t.end && TokenBytes() == TokenText(data, t.start, t.end))
              && (!found ==> current == limit && tokenLen == 0)
    {
      var i := SkipSpaces(current);
      if i == limit {
        current, tokenLen := limit, 0;
        return false;
      }
      var e := i + 1;
      if IsAlnum(data[i]) {
        e := AlnumEnd(i);
      }
      CopyToken(i, Min(e - i, MaxTokenLen));
      tokenStart, current := i, e;
      found := true;
    }

    /** The first non-whitespace position at or after `i`. */
    method SkipSpaces(i: nat) returns (j: nat)
      requires Valid() && i <= limit
      ensures j == SkipSpace(data, i, limit)
    {
      j := i;
      while j < limit && IsSpace(data[j])
        invariant i <= j <= limit
        invariant SkipSpace(data, j, limit) == SkipSpace(data, i, limit)
        decreases limit - j
      {
        j := j + 1;
      }
    }

    /** The end of the run of alphanumerics starting at `i`. */
    method AlnumEnd(i: nat) returns (e: nat)
      requires Valid() && i < limit && IsAlnum(data[i])
      ensures e == AlnumRunEnd(data, i, limit)
    {
      e := i + 1;
      while e < limit && IsAlnum(data[e])
        invariant i < e <= limit
        invariant AlnumRunEnd(data, e, limit) == AlnumRunEnd(data, i, limit)
        decreases limit - e
      {
        e := e + 1;
      }
    }

    /** Copies the `n` bytes at `i` into the token buffer. */
    method CopyToken(i: nat, n: nat)
      requires Valid() && i + n <= |data| && n <= MaxTokenLen
      modifies this`tokenLen, token
      ensures Valid() && TokenBytes() == data[i..i + n]
    {
      var k := 0;
      while k < n
        invariant 0 <= k <= n
        invariant token[..k] == data[i..i + k]
      {
        token[k] := data[i + k];
        k := k + 1;
      }
      tokenLen := n;
    }

    /**
     * -parseNonMarkupToken: calls ParseToken until the token is not the
     * start of a tag or character entity, jumping over each piece of markup
     * it meets; leaves that token in `_token` and the cursor just after it.
     */
    method ParseNonMarkupToken() returns (found: bool)
      requires Valid()
      modifies this`current, this`tokenLen, this`tokenStart, token
      ensures Valid()
      ensures var r := NextNonMarkup(data, old(current), limit);
              && found == r.Token?
              && (found ==> tokenStart == r.start && current == r.end && TokenBytes() == TokenText(data, r.start, r.end))
              && (!found ==> current == limit)
    {
      ghost var pos: nat := current;
      found := ParseToken();
      while found
        invariant Valid() && current <= limit
        invariant pos <= limit
        invariant NextNonMarkup(data, pos, limit) == NextNonMarkup(data, old(current), limit)
        invariant found ==> NextToken(data, pos, limit) == Token(tokenStart, current)
                            && TokenBytes() == TokenText(data, tokenStart, current)
        invariant !found ==> NextToken(data, pos, limit).EndOfInput? && current == limit
        decreases limit - pos
      {
        var m := FindMarkupEnd(data, tokenStart, limit);
        if m.None? {
          return;
        }
        current := m.value;
        pos := current;
        found := ParseToken();
      }
    }

    /** Pops `_sectionStack` down to `d` entries, ending each popped section at `p`. */
    method PopSections(d: nat, p: nat)
      requires Valid() && d <= |sectionStack|
      modifies this`sections, this`sectionStack
      ensures Valid()
      ensures sections == CloseFrom(old(sections), old(sectionStack), d, p)
      ensures sectionStack == old(sectionStack)[..d]
    {
      while |sectionStack| > d
        invariant Valid() && |sections| == |old(sections)|
        invariant |sections| > 0 ==> sections[0].depth == old(sections)[0].depth
        invariant d <= |sectionStack| <= |old(sectionStack)|
        invariant sectionStack == old(sectionStack)[..|sectionStack|]
        invariant CloseFrom(sections, sectionStack, d, p) == CloseFrom(old(sections), old(sectionStack), d, p)
        decreases |sectionStack|
      {
        var top := sectionStack[|sectionStack| - 1];
        sections := sections[top := sections[top].(end := p)];
        sectionStack := sectionStack[..|sectionStack| - 1];
      }
    }

    /** Reacts to heading `h`: closes the sections it ends and pushes the section it opens, if any. */
    method OpenSection(h: Heading)
      requires Valid()
      modifies this`sections, this`sectionStack
      ensures Valid()
      ensures Outline(sections, sectionStack) == Open(old(Outline(sections, sectionStack)), h)
    {
      if !Accepts(Outline(sections, sectionStack), h) {
        return;
      }
      if h.depth == ROOT {
        sections, sectionStack := [Section(h.name, h.start, h.start, ROOT, 0, [])], [0];
        return;
      }
      PopSections(h.depth, h.start);
      var n := |sections|;
      var parent := sectionStack[h.depth - 1];
      sections := sections[parent := sections[parent].(children := sections[parent].children + [n])]
                  + [Section(h.name, h.start, h.start, h.depth, parent, [])];
      sectionStack := sectionStack + [n];
    }

    /**
     * Reads the tag whose `<` is at `b` (the cursor is just after it) and
     * returns the heading it opens, if it is one.
     */
    method ParseHeadingTag(b: nat) returns (f: Option<Found>)
      requires Valid() && b < limit && data[b] == LT && current == b + 1
      modifies this`current, this`tokenLen, this`tokenStart, token
      ensures Valid()
      ensures f == HeadingAt(data, b, limit)
    {
      var word := ParseToken();
      if !word {
        return None;
      }
      assert |TokenBytes()| == tokenLen;
      assert tokenLen == 2 <==> current == tokenStart + 2;
      if tokenLen != 2 {
        return None;
      }
      assert token[0] == TokenBytes()[0] == data[tokenStart] && token[1] == TokenBytes()[1] == data[tokenStart + 1];
      if !IsHeadingLetter(token[0]) || !(DIGIT_1 <= token[1] <= DIGIT_3) {
        return None;
      }
      var digit := token[1];
      var m := FindMarkupEnd(data, b, limit);
      if m.None? {
        return None;
      }
      var c := SearchHeadingClose(data, m.value, limit, digit);
      if c.None? {
        return None;
      }
      f := Some(Found(Heading(data[m.value..c.value], b, (digit - DIGIT_1) as nat), m.value, c.value));
    }

    /**
     * One step of the scan for headings: reads a token and, when it is the
     * `<` of a heading, reacts to that heading. Returns false at the end of
     * the data.
     */
    method ParseNextHeading() returns (more: bool)
      requires Valid()
      modifies this`current, this`tokenLen, this`tokenStart, token, this`sections, this`sectionStack
      ensures Valid()
      ensures more ==> old(current) < current
      ensures more ==> FoldHeadings(Outline(sections, sectionStack), HeadingsFrom(data, current, limit))
                       == FoldHeadings(old(Outline(sections, sectionStack)), HeadingsFrom(data, old(current), limit))
      ensures !more ==> current == limit && HeadingsFrom(data, old(current), limit) == []
      ensures !more ==> Outline(sections, sectionStack) == old(Outline(sections, sectionStack))
      ensures old(Building()) ==> Building()
    {
      ghost var i := current;
      ghost var building := Building();
      more := ParseToken();
      if !more {
        if building {
          StartsBelowMono(sections, i, current);
        }
        return;
      }
      ghost var o := Outline(sections, sectionStack);
      var lt := TokenIsOpenAngle();
      if lt {
        ReadTag(tokenStart);
      }
      ScanStepFold(data, i, limit, o, Outline(sections, sectionStack), current);
      if building {
        ScanStepInv(data, i, limit, o, Outline(sections, sectionStack), current);
      }
    }

    /** The most recently parsed token is `<`. */
    method TokenIsOpenAngle() returns (lt: bool)
      requires Valid() && tokenStart < current <= limit
      requires IsWord(data, tokenStart, current, limit) || IsPunctToken(data, tokenStart, current, limit)
      requires TokenBytes() == TokenText(data, tokenStart, current)
      ensures lt == (data[tokenStart] == LT)
    {
      assert 0 < tokenLen ==> token[0] == TokenBytes()[0];
      lt := tokenLen == 1 && token[0] == LT;
      assert data[tokenStart] == LT ==> current == tokenStart + 1;
    }

    /**
     * Reacts to the tag whose `<` is at `b`: opens the heading's section and
     * moves the cursor to its closing tag, or, when the tag is not a
     * heading, leaves the cursor just after the `<`.
     */
    method ReadTag(b: nat)
      requires Valid() && b < limit && data[b] == LT && current == b + 1
      modifies this`current, this`tokenLen, this`tokenStart, token, this`sections, this`sectionStack
      ensures Valid()
      ensures var f := HeadingAt(data, b, limit);
              && (f.Some? ==> current == f.value.resume
                              && Outline(sections, sectionStack) == Open(old(Outline(sections, sectionStack)), f.value.heading))
              && (f.None? ==> current == b + 1 && Outline(sections, sectionStack) == old(Outline(sections, sectionStack)))
    {
      var f := ParseHeadingTag(b);
      if f.Some? {
        OpenSection(f.value.heading);
        current := f.value.resume;
      } else {
        current := b + 1;
      }
    }

    /**
     * -parseCurrentFile: scans the whole data for headings and builds the
     * section tree; fails, leaving no root, when the data has no h1 heading.
     */
    method ParseCurrentFile() returns (ok: bool)
      requires Valid() && current == 0 && limit == |data| && sections == [] && sectionStack == []
      modifies this`current, this`tokenLen, this`tokenStart, token
      modifies this`sections, this`sectionStack, this`rootSectionOfCurrentFile
      ensures Valid()
      ensures Outline(sections, sectionStack) == BuildOutline(data)
      ensures Finished(sections, |data|) && sectionStack == []
      ensures ok == (sections != []) && rootSectionOfCurrentFile == (if ok then Some(0) else None)
      ensures ok <==> HasH1(data)
    {
      ghost var all := FoldHeadings(Empty, HeadingsFrom(data, 0, limit));
      var more := true;
      while more
        invariant Valid() && limit == |data| && rootSectionOfCurrentFile.None?
        invariant Building()
        invariant FoldHeadings(Outline(sections, sectionStack), HeadingsFrom(data, current, limit)) == all
        invariant !more ==> HeadingsFrom(data, current, limit) == []
        decreases limit - current, more
      {
        more := ParseNextHeading();
      }
      assert Outline(sections, sectionStack) == all;
      ok := FinishFile();
      assert Outline(sections, sectionStack) == BuildOutline(data);
      RootIffH1(data);
    }

    /** At the end of the data: ends every open section there and records the root, if the file has one. */
    method FinishFile() returns (ok: bool)
      requires Valid() && Building() && limit == |data| && rootSectionOfCurrentFile.None?
      modifies this`sections, this`sectionStack, this`rootSectionOfCurrentFile
      ensures Valid()
      ensures Outline(sections, sectionStack) == Finish(old(Outline(sections, sectionStack)), limit)
      ensures Finished(sections, |data|)
      ensures ok == (sections != []) && rootSectionOfCurrentFile == (if ok then Some(0) else None)
    {
      ghost var o := Outline(sections, sectionStack);
      StartsBelowMono(sections, current, limit);
      FinishIsFinished(o, limit);
      OneRoot(o.secs);
      PopSections(0, limit);
      ok := sections != [];
      rootSectionOfCurrentFile := if ok then Some(0) else None;
    }

    /**
     * Parses one file: the kludge is applied first for Tiger docs, then the
     * section tree is built on the result; afterwards the original bytes are
     * what later passes re-scan.
     */
    method ParseFile(fileData: seq<byte>, forTiger: bool) returns (ok: bool)
      requires Valid()
      modifies this, token
      ensures Valid()
      ensures original == fileData && data == if forTiger then KludgeHTML(fileData) else fileData
      ensures Outline(sections, sectionStack) == BuildOutline(data)
      ensures Finished(sections, |data|) && sectionStack == []
      ensures ok == (sections != []) && rootSectionOfCurrentFile == (if ok then Some(0) else None)
      ensures ok <==> HasH1(data)
    {
      original := fileData;
      if forTiger {
        var kludged := KludgeHTMLForTiger(fileData);
        data := kludged[..];
      } else {
        data := fileData;
      }
      current, limit := 0, |data|;
      sections, sectionStack, rootSectionOfCurrentFile := [], [], None;
      ok := ParseCurrentFile();
    }

    /** -rootSectionOfCurrentFile. */
    method RootSectionOfCurrentFile() returns (root: Option<Section>)
      requires Valid()
      ensures root.Some? <==> rootSectionOfCurrentFile.Some?
      ensures root.Some? ==> 0 < |sections| && root.value == sections[0] && root.value.depth == ROOT
    {
      root := if rootSectionOfCurrentFile.Some? then Some(sections[rootSectionOfCurrentFile.value]) else None;
    }

    /** Points the scanner at bytes [lo, hi) of the original file, as the extractors do for one section. */
    method ScanOriginal(lo: nat, hi: nat)
      requires Valid() && lo <= hi <= |original|
      modifies this`data, this`current, this`limit
      ensures Valid() && data == original && current == lo && limit == hi
    {
      data, current, limit := original, lo, hi;
    }
  }

  /** Section ranges computed on the kludged bytes are ranges of the original file. */
  lemma RangesInOriginal(fileData: seq<byte>, forTiger: bool)
    ensures var o := BuildOutline(if forTiger then KludgeHTML(fileData) else fileData);
            forall i :: 0 <= i < |o.secs| ==> o.secs[i].start < o.secs[i].end <= |fileData|
  {
    var s := if forTiger then KludgeHTML(fileData) else fileData;
    if forTiger {
      KludgePreservesOffsets(fileData);
    }
    BuildOutlineIsTree(s);
    var secs := BuildOutline(s).secs;
    forall i | 0 <= i < |secs| ensures secs[i].start < secs[i].end <= |fileData| {
      RangeInData(secs, |s|, i);
    }
  }
}
