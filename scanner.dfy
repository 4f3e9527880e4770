/**
 * The token grammar of the doc parser, as functions over a byte buffer `s`
 * scanned from a cursor `i` up to a limit `lim` (the end of the data, or of
 * the file section being re-scanned).
 *
 *  - NextToken is what one call of -parseToken consumes: whitespace is
 *    skipped, then either a maximal run of alphanumerics or exactly one
 *    punctuation byte.
 *  - NextNonMarkup is what one call of -parseNonMarkupToken consumes:
 *    NextToken repeatedly, discarding every `<` that opens a tag `<...>` and
 *    every `&` that opens a character entity `&...;` together with the rest
 *    of that markup.
 */
module Scanner {
  import opened Bytes

  /** The outcome of one scan: the span [start, end) of a token, or the end of the input. */
  datatype Scan = EndOfInput | Token(start: nat, end: nat)

  /** First position at or after `i` that is not whitespace (or `lim`). */
  function SkipSpace(s: seq<byte>, i: nat, lim: nat): (j: nat)
    requires i <= lim <= |s|
    ensures i <= j <= lim
    ensures forall k :: i <= k < j ==> IsSpace(s[k])
    ensures j < lim ==> !IsSpace(s[j])
    decreases lim - i
  {
    if i < lim && IsSpace(s[i]) then SkipSpace(s, i + 1, lim) else i
  }

  /** End of the run of alphanumerics that starts at `i`. */
  function AlnumRunEnd(s: seq<byte>, i: nat, lim: nat): (j: nat)
    requires i <= lim <= |s|
    ensures i <= j <= lim
    ensures forall k :: i <= k < j ==> IsAlnum(s[k])
    ensures j < lim ==> !IsAlnum(s[j])
    decreases lim - i
  {
    if i < lim && IsAlnum(s[i]) then AlnumRunEnd(s, i + 1, lim) else i
  }

  /** [b, e) is a word token: a non-empty run of alphanumerics that cannot be extended to the right. */
  predicate IsWord(s: seq<byte>, b: nat, e: nat, lim: nat)
    requires lim <= |s|
  {
    b < e <= lim
    && (forall k :: b <= k < e ==> IsAlnum(s[k]))
    && (e < lim ==> !IsAlnum(s[e]))
  }

  /** [b, e) is a punctuation token: exactly one byte that is neither alphanumeric nor whitespace. */
  predicate IsPunctToken(s: seq<byte>, b: nat, e: nat, lim: nat)
    requires lim <= |s|
  {
    b < lim && e == b + 1 && IsPunct(s[b])
  }

  /** The token that -parseToken consumes from cursor `i`. */
  function NextToken(s: seq<byte>, i: nat, lim: nat): (r: Scan)
    requires i <= lim <= |s|
    ensures r.Token? ==> i <= r.start < r.end <= lim
    ensures r.Token? ==> IsWord(s, r.start, r.end, lim) || IsPunctToken(s, r.start, r.end, lim)
    ensures r.Token? ==> forall k :: i <= k < r.start ==> IsSpace(s[k])
    ensures r.EndOfInput? <==> forall k :: i <= k < lim ==> IsSpace(s[k])
  {
    var b := SkipSpace(s, i, lim);
    if b == lim then EndOfInput
    else if IsAlnum(s[b]) then Token(b, AlnumRunEnd(s, b, lim))
    else Token(b, b + 1)
  }

  /**
   * The text -parseToken leaves in the token buffer: the token's bytes, cut
   * to what the buffer holds next to its string terminator.
   */
  function TokenText(s: seq<byte>, b: nat, e: nat): (t: seq<byte>)
    requires b <= e <= |s|
    ensures |t| <= MaxTokenLen && |t| < TokenBufferSize
    ensures t <= s[b..e]
    ensures e - b <= MaxTokenLen ==> t == s[b..e]
    ensures e - b > MaxTokenLen ==> |t| == MaxTokenLen
  {
    s[b..Min(e, b + MaxTokenLen)]
  }

  /** Two tokens scanned one after the other never overlap and never split a run of alphanumerics. */
  lemma ConsecutiveTokens(s: seq<byte>, i: nat, lim: nat)
    requires i <= lim <= |s|
    requires NextToken(s, i, lim).Token?
    ensures var t := NextToken(s, i, lim);
            var u := NextToken(s, t.end, lim);
            u.Token? ==> t.end <= u.start && (IsAlnum(s[u.start]) ==> !IsAlnum(s[u.start - 1]))
  {
    var t := NextToken(s, i, lim);
    var u := NextToken(s, t.end, lim);
    if u.Token? && u.start > t.end {
      assert IsSpace(s[u.start - 1]);
    }
  }

  /** Position of the first `d` in [i, stop). */
  function FindByte(s: seq<byte>, i: nat, stop: nat, d: byte): (r: Option<nat>)
    requires i <= stop <= |s|
    ensures r.Some? ==> i <= r.value < stop && s[r.value] == d
    ensures r.Some? ==> forall k :: i <= k < r.value ==> s[k] != d
    ensures r.None? ==> forall k :: i <= k < stop ==> s[k] != d
    decreases stop - i
  {
    if i == stop then None
    else if s[i] == d then Some(i)
    else FindByte(s, i + 1, stop, d)
  }

  /** The byte that closes markup opened by `open`: `>` for a tag, `;` for a character entity. */
  function Closer(open: byte): byte
  {
    if open == LT then GT else SEMI
  }

  /**
   * [b, e) is one piece of markup: a `<` or `&`, then bytes that are not its
   * closer, then the closer; all of it fits in the token buffer.
   */
  predicate IsMarkup(s: seq<byte>, b: nat, e: nat)
    requires e <= |s|
  {
    b + 2 <= e && e - b <= MaxTokenLen
    && (s[b] == LT || s[b] == AMP)
    && s[e - 1] == Closer(s[b])
    && (forall k :: b < k < e - 1 ==> s[k] != Closer(s[b]))
  }

  /** One past the end of the markup that opens at `b` and closes before `lim`, if there is one. */
  function MarkupEnd(s: seq<byte>, b: nat, lim: nat): (r: Option<nat>)
    requires b < lim <= |s|
    ensures r.Some? ==> r.value <= lim && IsMarkup(s, b, r.value)
    ensures r.None? ==> forall e :: b < e <= lim ==> !IsMarkup(s, b, e)
  {
    if s[b] == LT || s[b] == AMP then
      var stop := Min(lim, b + MaxTokenLen);
      match FindByte(s, b + 1, stop, Closer(s[b]))
      case Some(j) => Some(j + 1)
      case None => None
    else None
  }

  /** The token that -parseNonMarkupToken consumes from cursor `i`. */
  function NextNonMarkup(s: seq<byte>, i: nat, lim: nat): (r: Scan)
    requires i <= lim <= |s|
    ensures r.Token? ==> i <= r.start < r.end <= lim
    decreases lim - i
  {
    match NextToken(s, i, lim)
    case EndOfInput => EndOfInput
    case Token(b, e) =>
      match MarkupEnd(s, b, lim)
      case Some(m) => NextNonMarkup(s, m, lim)
      case None => Token(b, e)
  }

  /** [i, j) consists only of whitespace and whole pieces of markup. */
  predicate Skippable(s: seq<byte>, i: nat, j: nat, lim: nat)
    requires i <= j <= lim <= |s|
    decreases j - i
  {
    i == j
    || (IsSpace(s[i]) && Skippable(s, i + 1, j, lim))
    || (MarkupEnd(s, i, lim).Some? && MarkupEnd(s, i, lim).value <= j
        && Skippable(s, MarkupEnd(s, i, lim).value, j, lim))
  }

  lemma {:induction false} SpacesSkippable(s: seq<byte>, i: nat, j: nat, lim: nat)
    requires i <= j <= lim <= |s|
    requires forall k :: i <= k < j ==> IsSpace(s[k])
    ensures Skippable(s, i, j, lim)
    decreases j - i
  {
    if i < j {
      SpacesSkippable(s, i + 1, j, lim);
    }
  }

  lemma {:induction false} SkippableConcat(s: seq<byte>, i: nat, j: nat, k: nat, lim: nat)
    requires i <= j <= k <= lim <= |s|
    requires Skippable(s, i, j, lim) && Skippable(s, j, k, lim)
    ensures Skippable(s, i, k, lim)
    decreases j - i
  {
    if i == j {
    } else if IsSpace(s[i]) && Skippable(s, i + 1, j, lim) {
      SkippableConcat(s, i + 1, j, k, lim);
    } else {
      SkippableConcat(s, MarkupEnd(s, i, lim).value, j, k, lim);
    }
  }

  /**
   * What -parseNonMarkupToken returns is a token -parseToken would return
   * at that position and not the start of markup; everything it passed over
   * on the way is whitespace or whole markup.
   */
  lemma {:induction false} NonMarkupTokenIsTextToken(s: seq<byte>, i: nat, lim: nat)
    requires i <= lim <= |s|
    ensures var r := NextNonMarkup(s, i, lim);
            && (r.Token? ==> NextToken(s, r.start, lim) == r)
            && (r.Token? ==> MarkupEnd(s, r.start, lim).None?)
            && (r.Token? ==> Skippable(s, i, r.start, lim))
            && (r.EndOfInput? ==> Skippable(s, i, lim, lim))
    decreases lim - i
  {
    var t := NextToken(s, i, lim);
    match t
    case EndOfInput =>
      SpacesSkippable(s, i, lim, lim);
    case Token(b, e) =>
      SpacesSkippable(s, i, b, lim);
      match MarkupEnd(s, b, lim)
      case Some(m) =>
        NonMarkupTokenIsTextToken(s, m, lim);
        var r := NextNonMarkup(s, m, lim);
        var stop := if r.Token? then r.start else lim;
        assert Skippable(s, b, stop, lim);
        SkippableConcat(s, i, b, stop, lim);
      case None =>
        assert SkipSpace(s, b, lim) == b;
  }

  /** A non-empty stretch of whitespace and markup ends in whitespace or in the closer of a piece of markup. */
  lemma {:induction false} SkippableLast(s: seq<byte>, i: nat, j: nat, lim: nat)
    requires i < j <= lim <= |s| && Skippable(s, i, j, lim)
    ensures IsSpace(s[j - 1]) || s[j - 1] == GT || s[j - 1] == SEMI
    decreases j - i
  {
    if IsSpace(s[i]) && Skippable(s, i + 1, j, lim) {
      if i + 1 < j {
        SkippableLast(s, i + 1, j, lim);
      }
    } else {
      var m := MarkupEnd(s, i, lim).value;
      if m < j {
        SkippableLast(s, m, j, lim);
      }
    }
  }

  /**
   * A token -parseNonMarkupToken returns is a word or a single punctuation
   * byte other than markup, and when markup or whitespace was passed over
   * to reach it, the byte before it is not alphanumeric: a word is never
   * cut on its left.
   */
  lemma NonMarkupTokenShape(s: seq<byte>, i: nat, lim: nat)
    requires i <= lim <= |s|
    ensures var r := NextNonMarkup(s, i, lim);
            r.Token? ==>
              && (IsWord(s, r.start, r.end, lim) || IsPunctToken(s, r.start, r.end, lim))
              && (forall e :: r.start < e <= lim ==> !IsMarkup(s, r.start, e))
              && (i < r.start ==> !IsAlnum(s[r.start - 1]))
  {
    var r := NextNonMarkup(s, i, lim);
    NonMarkupTokenIsTextToken(s, i, lim);
    if r.Token? {
      TextTokenShape(s, i, lim, r);
    }
  }

  /** NonMarkupTokenShape for a token already known to be a text token reached over skippable bytes. */
  lemma TextTokenShape(s: seq<byte>, i: nat, lim: nat, r: Scan)
    requires lim <= |s| && r.Token? && i <= r.start < r.end <= lim
    requires NextToken(s, r.start, lim) == r && MarkupEnd(s, r.start, lim).None?
    requires Skippable(s, i, r.start, lim)
    ensures IsWord(s, r.start, r.end, lim) || IsPunctToken(s, r.start, r.end, lim)
    ensures forall e :: r.start < e <= lim ==> !IsMarkup(s, r.start, e)
    ensures i < r.start ==> !IsAlnum(s[r.start - 1])
  {
    if i < r.start {
      SkippableLast(s, i, r.start, lim);
    }
  }

  /** The search -parseNonMarkupToken runs after a `<` or `&` token for the markup's closer. */
  method FindMarkupEnd(s: seq<byte>, b: nat, lim: nat) returns (r: Option<nat>)
    requires b < lim <= |s|
    ensures r == MarkupEnd(s, b, lim)
  {
    if s[b] != LT && s[b] != AMP {
      return None;
    }
    var close := Closer(s[b]);
    var stop := Min(lim, b + MaxTokenLen);
    var j := b + 1;
    while j < stop && s[j] != close
      invariant b + 1 <= j <= stop
      invariant FindByte(s, j, stop, close) == FindByte(s, b + 1, stop, close)
      decreases stop - j
    {
      j := j + 1;
    }
    r := if j < stop then Some(j + 1) else None;
  }
}
