/**
 * What the doc parser reads in a Tiger file once the rewrite has run: a
 * mach4 div is a minor (h3) heading and a plain `<span>` an h1 heading,
 * each named by the very bytes it encloses in the original file, at the
 * offset it has there.
 */
module TigerHeadings {
  import opened Bytes
  import opened Scanner
  import opened Sections
  import opened Headings
  import opened Kludge

  /** Reads the three leading pieces of `t[i..]` back byte by byte. */
  lemma Pieces(t: seq<byte>, i: nat, a: seq<byte>, b: seq<byte>, c: seq<byte>, rest: seq<byte>)
    requires i <= |t| && t[i..] == a + b + c + rest
    ensures forall m :: 0 <= m < |a| ==> t[i + m] == a[m]
    ensures forall m :: 0 <= m < |b| ==> t[i + |a| + m] == b[m]
    ensures forall m :: 0 <= m < |c| ==> t[i + |a| + |b| + m] == c[m]
  {
    forall m | 0 <= m < |a| ensures t[i + m] == a[m] {
      assert t[i..][m] == a[m];
    }
    forall m | 0 <= m < |b| ensures t[i + |a| + m] == b[m] {
      assert t[i..][|a| + m] == b[m];
    }
    forall m | 0 <= m < |c| ensures t[i + |a| + |b| + m] == c[m] {
      assert t[i..][|a| + |b| + m] == c[m];
    }
  }

  /** The closing tag the parser looks for is the first one after the name when the name holds no `<`. */
  lemma CloseAfterName(t: seq<byte>, n: nat, j: nat, digit: byte)
    requires n <= j && j + 4 <= |t| && ClosingTagAt(t, j, digit)
    requires forall k :: n <= k < j ==> t[k] != LT
    ensures FindHeadingClose(t, n, |t|, digit) == Some(j)
  {
  }

  /** `open` is the opening tag of a heading with `digit`: `<`, `h`, the digit, a blank, and `>` only at its end. */
  predicate OpenTagShape(open: seq<byte>, digit: byte)
  {
    4 <= |open| <= MaxTokenLen
    && open[0] == LT && open[1] == LOWER_H && open[2] == digit && open[3] == SPACE
    && open[|open| - 1] == GT && (forall m :: 0 < m < |open| - 1 ==> open[m] != GT)
  }

  /** `close` starts with the closing tag of a heading with `digit`. */
  predicate CloseTagShape(close: seq<byte>, digit: byte)
  {
    4 <= |close| && close[0] == LT && close[1] == SLASH && close[2] == LOWER_H && close[3] == digit
  }

  lemma TigerTagShapes()
    ensures OpenTagShape(H3_OPEN, DIGIT_3) && CloseTagShape(H3_CLOSE, DIGIT_3)
    ensures OpenTagShape(H1_OPEN + [GT], DIGIT_1) && CloseTagShape(H1_CLOSE, DIGIT_1)
  {
  }

  /**
   * An opening tag of that shape at `i`, a closing tag at `j` and no `<`
   * between them make a heading named by the bytes in between.
   */
  lemma HeadingFromTags(t: seq<byte>, i: nat, open: seq<byte>, j: nat, close: seq<byte>, digit: byte)
    requires OpenTagShape(open, digit) && CloseTagShape(close, digit) && DIGIT_1 <= digit <= DIGIT_3
    requires i + |open| <= j && j + |close| <= |t|
    requires forall m :: 0 <= m < |open| ==> t[i + m] == open[m]
    requires forall m :: 0 <= m < |close| ==> t[j + m] == close[m]
    requires forall k :: i + |open| <= k < j ==> t[k] != LT
    ensures HeadingAt(t, i, |t|)
         == Some(Found(Heading(t[i + |open|..j], i, (digit - DIGIT_1) as nat), i + |open|, j))
  {
    var lim := |t|;
    var n := i + |open|;
    assert t[i + 1] == LOWER_H && t[i + 2] == digit && t[i + 3] == SPACE;
    assert SkipSpace(t, i + 1, lim) == i + 1;
    assert AlnumRunEnd(t, i + 1, lim) == i + 3;
    assert NextToken(t, i + 1, lim) == Token(i + 1, i + 3);
    assert HeadingWord(t, i + 1, i + 3);
    assert t[n - 1] == open[|open| - 1];
    assert forall k :: i < k < n - 1 ==> t[k] == open[k - i];
    assert FindByte(t, i + 1, Min(lim, i + MaxTokenLen), GT) == Some(n - 1);
    assert MarkupEnd(t, i, lim) == Some(n);
    assert ClosingTagAt(t, j, digit) by {
      assert t[j] == close[0] && t[j + 1] == close[1] && t[j + 2] == close[2] && t[j + 3] == close[3];
    }
    CloseAfterName(t, n, j, digit);
  }

  /**
   * When `t[i..]` is `a + s[x..y] + c + rest` and the middle piece sits at
   * its own offsets, `t` holds `a` at `i`, the bytes of `s` in [x, y), and
   * `c` at `y`.
   */
  lemma MiddleIsSource(t: seq<byte>, i: nat, a: seq<byte>, s: seq<byte>, x: nat, y: nat, c: seq<byte>, rest: seq<byte>)
    requires i <= |t| && x == i + |a| && x <= y <= |s| && t[i..] == a + s[x..y] + c + rest
    ensures y + |c| <= |t|
    ensures forall m :: 0 <= m < |a| ==> t[i + m] == a[m]
    ensures forall k :: x <= k < y ==> t[k] == s[k]
    ensures forall m :: 0 <= m < |c| ==> t[y + m] == c[m]
  {
    Pieces(t, i, a, s[x..y], c, rest);
    forall k | x <= k < y ensures t[k] == s[k] {
      assert t[i + |a| + (k - x)] == s[x..y][k - x];
    }
  }

  /** The rewritten bytes around a mach4 div: h3 tags, and the name bytes as they were. */
  lemma KludgedMach4(s: seq<byte>, i: nat, j: nat)
    requires HasAt(s, i, DIV_OPEN) && i + |DIV_OPEN| <= j && HasAt(s, j, DIV_CLOSE)
    requires forall k :: i + |DIV_OPEN| <= k < j ==> s[k] != LT
    ensures var t := KludgeHTML(s);
            && j + |H3_CLOSE| <= |t|
            && (forall m :: 0 <= m < |H3_OPEN| ==> t[i + m] == H3_OPEN[m])
            && (forall k :: i + |H3_OPEN| <= k < j ==> t[k] == s[k])
            && (forall m :: 0 <= m < |H3_CLOSE| ==> t[j + m] == H3_CLOSE[m])
  {
    HasAtIff(s, i, DIV_OPEN);
    var d := KludgeHTMLAt(s, i);
    KludgeMach4At(s, i, j, d);
    var n := i + |DIV_OPEN|;
    var rest := KludgedFrom(MARKERS, s, j + |DIV_CLOSE|, false);
    assert KludgeHTML(s)[i..] == H3_OPEN + s[n..j] + H3_CLOSE + rest;
    MiddleIsSource(KludgeHTML(s), i, H3_OPEN, s, n, j, H3_CLOSE, rest);
  }

  /** The rewritten bytes around a plain span: h1 tags, and the `>` and name bytes as they were. */
  lemma KludgedSpan(s: seq<byte>, i: nat, j: nat)
    requires HasAt(s, i, SPAN_OPEN) && i + |SPAN_OPEN| < j && HasAt(s, j, SPAN_CLOSE)
    requires s[i + |SPAN_OPEN|] == GT || IsSpace(s[i + |SPAN_OPEN|])
    requires forall k :: i + |SPAN_OPEN| <= k < j ==> s[k] != LT
    ensures var t := KludgeHTML(s);
            && j + |H1_CLOSE| <= |t|
            && (forall m :: 0 <= m < |H1_OPEN| ==> t[i + m] == H1_OPEN[m])
            && (forall k :: i + |H1_OPEN| <= k < j ==> t[k] == s[k])
            && (forall m :: 0 <= m < |H1_CLOSE| ==> t[j + m] == H1_CLOSE[m])
  {
    HasAtIff(s, i, SPAN_OPEN);
    var d := KludgeHTMLAt(s, i);
    KludgeSpanAt(s, i, j, d);
    var g := i + |SPAN_OPEN|;
    var rest := KludgedFrom(MARKERS, s, j + |SPAN_CLOSE|, d);
    assert KludgeHTML(s)[i..] == H1_OPEN + s[g..j] + H1_CLOSE + rest;
    MiddleIsSource(KludgeHTML(s), i, H1_OPEN, s, g, j, H1_CLOSE, rest);
  }

  /**
   * A Tiger method-doc marker `<div class="mach4">name</div>` is, in the
   * rewritten file, a minor heading at the div's offset, named by the bytes
   * between the div's tags.
   */
  lemma Mach4IsMinorHeading(s: seq<byte>, i: nat, j: nat)
    requires HasAt(s, i, DIV_OPEN) && i + |DIV_OPEN| <= j && HasAt(s, j, DIV_CLOSE)
    requires forall k :: i + |DIV_OPEN| <= k < j ==> s[k] != LT
    ensures HeadingAt(KludgeHTML(s), i, |s|)
         == Some(Found(Heading(s[i + |DIV_OPEN|..j], i, MINOR), i + |DIV_OPEN|, j))
  {
    var t := KludgeHTML(s);
    var n := i + |DIV_OPEN|;
    KludgedMach4(s, i, j);
    TigerTagShapes();
    HeadingFromTags(t, i, H3_OPEN, j, H3_CLOSE, DIGIT_3);
    assert t[n..j] == s[n..j];
  }

  /**
   * A plain `<span>name</span>` is, in the rewritten file, a root (h1)
   * heading at the span's offset, named by the bytes between the span's
   * tags.
   */
  lemma SpanIsRootHeading(s: seq<byte>, i: nat, j: nat)
    requires HasAt(s, i, SPAN_OPEN) && i + |SPAN_OPEN| < j && HasAt(s, j, SPAN_CLOSE)
    requires s[i + |SPAN_OPEN|] == GT
    requires forall k :: i + |SPAN_OPEN| <= k < j ==> s[k] != LT
    ensures HeadingAt(KludgeHTML(s), i, |s|)
         == Some(Found(Heading(s[i + |SPAN_OPEN| + 1..j], i, ROOT), i + |SPAN_OPEN| + 1, j))
  {
    var t := KludgeHTML(s);
    var g := i + |SPAN_OPEN|;
    var open := H1_OPEN + [GT];
    KludgedSpan(s, i, j);
    forall m | 0 <= m < |open| ensures t[i + m] == open[m] {
      if m == |H1_OPEN| {
        assert t[g] == s[g];
      }
    }
    TigerTagShapes();
    HeadingFromTags(t, i, open, j, H1_CLOSE, DIGIT_1);
    assert t[g + 1..j] == s[g + 1..j];
  }
}
