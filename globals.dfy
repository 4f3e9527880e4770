/**
 * AKCocoaGlobalsDocParser: re-scans the bytes of one file section of the
 * original file for the names of the globals it documents. The scan walks
 * the section's non-markup tokens, keeping a window of two tokens: the
 * previous one (its text in `_prevToken`, its span) and the current one
 * (its text in the inherited token buffer, its span). A rule on the texts of
 * the pair decides whether the current token is a declared name; the rule
 * is a parameter here.
 */
module Globals {
  import opened Bytes
  import opened Scanner
  import opened DocParsing

  /** A name found in a section: its text and its span in the file. */
  datatype GlobalName = GlobalName(text: seq<byte>, start: nat, end: nat)

  /** The rule: given the previous token's text and the current token's text, is the current token a name? */
  type NameRule = (seq<byte>, seq<byte>) -> bool

  /** The non-markup tokens of [i, lim), in the order -parseNonMarkupToken returns them. */
  function TokensFrom(s: seq<byte>, i: nat, lim: nat): (ts: seq<Scan>)
    requires i <= lim <= |s|
    ensures forall k :: 0 <= k < |ts| ==> ts[k].Token? && i <= ts[k].start < ts[k].end <= lim
    decreases lim - i
  {
    match NextNonMarkup(s, i, lim)
    case EndOfInput => []
    case Token(b, e) => [Token(b, e)] + TokensFrom(s, e, lim)
  }

  /** Each token of the list is the one -parseNonMarkupToken returns just after the one before it. */
  lemma {:induction false} TokensAreConsecutive(s: seq<byte>, i: nat, lim: nat)
    requires i <= lim <= |s|
    ensures var ts := TokensFrom(s, i, lim);
            && (|ts| == 0 <==> NextNonMarkup(s, i, lim).EndOfInput?)
            && (|ts| > 0 ==> ts[0] == NextNonMarkup(s, i, lim))
            && (forall k :: 0 < k < |ts| ==> ts[k] == NextNonMarkup(s, ts[k - 1].end, lim))
    decreases lim - i
  {
    match NextNonMarkup(s, i, lim)
    case EndOfInput =>
    case Token(b, e) =>
      TokensAreConsecutive(s, e, lim);
      var rest := TokensFrom(s, e, lim);
      TokensTail(Token(b, e), rest, s, lim);
  }

  lemma TokensTail(t: Scan, rest: seq<Scan>, s: seq<byte>, lim: nat)
    requires t.Token? && t.end <= lim <= |s|
    requires forall k :: 0 <= k < |rest| ==> rest[k].Token? && rest[k].end <= lim
    requires |rest| > 0 ==> rest[0] == NextNonMarkup(s, t.end, lim)
    requires forall k :: 0 < k < |rest| ==> rest[k] == NextNonMarkup(s, rest[k - 1].end, lim)
    ensures var ts := [t] + rest;
            forall k :: 0 < k < |ts| ==> ts[k] == NextNonMarkup(s, ts[k - 1].end, lim)
  {
    var ts := [t] + rest;
    assert forall k :: 0 < k < |ts| ==> ts[k] == rest[k - 1];
  }

  /** Every entry of `ts` is the span of a token of `s`. */
  ghost predicate Spans(s: seq<byte>, ts: seq<Scan>)
  {
    forall k :: 0 <= k < |ts| ==> ts[k].Token? && ts[k].start <= ts[k].end <= |s|
  }

  /** The text of the `k`-th token of `ts`. */
  function TextOf(s: seq<byte>, ts: seq<Scan>, k: nat): seq<byte>
    requires k < |ts| && Spans(s, ts)
  {
    TokenText(s, ts[k].start, ts[k].end)
  }

  /** The text of the token before the `k`-th one; `prev` before the first. */
  function TextBefore(s: seq<byte>, ts: seq<Scan>, k: nat, prev: seq<byte>): seq<byte>
    requires k <= |ts| && Spans(s, ts)
  {
    if k == 0 then prev else TextOf(s, ts, k - 1)
  }

  /** The selection the rule makes from a list of tokens, the token before the first having text `prev`. */
  function Select(isName: NameRule, s: seq<byte>, ts: seq<Scan>, prev: seq<byte>): seq<GlobalName>
    requires Spans(s, ts)
  {
    if ts == [] then []
    else
      var text := TextOf(s, ts, 0);
      (if isName(prev, text) then [GlobalName(text, ts[0].start, ts[0].end)] else [])
      + Select(isName, s, ts[1..], text)
  }

  /**
   * The names the scan of [i, lim) reports, when the token before `i` had
   * text `prev`: each non-markup token whose text the rule accepts after the
   * text of the token before it.
   */
  function NamesFrom(isName: NameRule, s: seq<byte>, i: nat, lim: nat, prev: seq<byte>): (ns: seq<GlobalName>)
    requires i <= lim <= |s|
    ensures forall t :: 0 <= t < |ns| ==> i <= ns[t].start < ns[t].end <= lim
    ensures forall t :: 0 < t < |ns| ==> ns[t - 1].end <= ns[t].start
    decreases lim - i
  {
    match NextNonMarkup(s, i, lim)
    case EndOfInput => []
    case Token(b, e) =>
      var text := TokenText(s, b, e);
      var rest := NamesFrom(isName, s, e, lim, text);
      if isName(prev, text) then
        var n := GlobalName(text, b, e);
        PrependName(n, rest, i, lim);
        [n] + rest
      else rest
  }

  lemma PrependName(n: GlobalName, rest: seq<GlobalName>, i: nat, lim: nat)
    requires i <= n.start < n.end <= lim
    requires forall t :: 0 <= t < |rest| ==> n.end <= rest[t].start < rest[t].end <= lim
    requires forall t :: 0 < t < |rest| ==> rest[t - 1].end <= rest[t].start
    ensures var ns := [n] + rest;
            && (forall t :: 0 <= t < |ns| ==> i <= ns[t].start < ns[t].end <= lim)
            && (forall t :: 0 < t < |ns| ==> ns[t - 1].end <= ns[t].start)
  {
    var ns := [n] + rest;
    assert forall t :: 1 <= t < |ns| ==> ns[t] == rest[t - 1];
  }

  /** One step of the scan: the token at the head of the window decides the first name. */
  lemma NamesStep(isName: NameRule, s: seq<byte>, i: nat, lim: nat, prev: seq<byte>)
    requires i <= lim <= |s|
    ensures var r := NextNonMarkup(s, i, lim);
            && (r.EndOfInput? ==> NamesFrom(isName, s, i, lim, prev) == [])
            && (r.Token? ==>
                  var text := TokenText(s, r.start, r.end);
                  NamesFrom(isName, s, i, lim, prev)
                  == (if isName(prev, text) then [GlobalName(text, r.start, r.end)] else [])
                     + NamesFrom(isName, s, r.end, lim, text))
  {
  }

  /** The scan's names are the rule's selection from the section's non-markup tokens. */
  lemma {:induction false} NamesAreChoice(isName: NameRule, s: seq<byte>, i: nat, lim: nat, prev: seq<byte>)
    requires i <= lim <= |s|
    ensures Spans(s, TokensFrom(s, i, lim))
    ensures NamesFrom(isName, s, i, lim, prev) == Select(isName, s, TokensFrom(s, i, lim), prev)
    decreases lim - i
  {
    match NextNonMarkup(s, i, lim)
    case EndOfInput =>
    case Token(b, e) =>
      NamesAreChoice(isName, s, e, lim, TokenText(s, b, e));
      NamesStep(isName, s, i, lim, prev);
      var ts := TokensFrom(s, i, lim);
      assert ts[1..] == TokensFrom(s, e, lim);
  }

  /** The name record for the `k`-th token of `ts`. */
  function NameOf(s: seq<byte>, ts: seq<Scan>, k: nat): GlobalName
    requires k < |ts| && Spans(s, ts)
  {
    GlobalName(TextOf(s, ts, k), ts[k].start, ts[k].end)
  }

  /** The rule accepts the `k`-th token of `ts` after the text of the token before it. */
  ghost predicate IsAccepted(isName: NameRule, s: seq<byte>, ts: seq<Scan>, prev: seq<byte>, k: nat)
    requires k < |ts| && Spans(s, ts)
  {
    isName(TextBefore(s, ts, k, prev), TextOf(s, ts, k))
  }

  /** `n` is the name record of a token of `ts` that the rule accepts after the token before it. */
  ghost predicate IsAcceptedToken(isName: NameRule, s: seq<byte>, ts: seq<Scan>, prev: seq<byte>, n: GlobalName)
    requires Spans(s, ts)
  {
    exists k :: 0 <= k < |ts| && n == NameOf(s, ts, k) && IsAccepted(isName, s, ts, prev, k)
  }

  /**
   * Every name the rule selects is one of the tokens, with that token's
   * text, and the rule accepted it after the text of the token just before.
   */
  lemma ChosenAreAccepted(isName: NameRule, s: seq<byte>, ts: seq<Scan>, prev: seq<byte>)
    requires Spans(s, ts)
    ensures var ns := Select(isName, s, ts, prev);
            forall t :: 0 <= t < |ns| ==> IsAcceptedToken(isName, s, ts, prev, ns[t])
  {
    var ns := Select(isName, s, ts, prev);
    forall t | 0 <= t < |ns|
      ensures IsAcceptedToken(isName, s, ts, prev, ns[t])
    {
      var k := ChosenIndex(isName, s, ts, prev, t);
      assert ns[t] == NameOf(s, ts, k) && IsAccepted(isName, s, ts, prev, k);
    }
  }

  /** The index in `ts` of the `t`-th selected name. */
  lemma {:induction false} ChosenIndex(isName: NameRule, s: seq<byte>, ts: seq<Scan>, prev: seq<byte>, t: nat) returns (k: nat)
    requires Spans(s, ts) && t < |Select(isName, s, ts, prev)|
    ensures k < |ts| && Select(isName, s, ts, prev)[t] == NameOf(s, ts, k) && IsAccepted(isName, s, ts, prev, k)
    decreases |ts|
  {
    var text := TextOf(s, ts, 0);
    var rest := ts[1..];
    var ns := Select(isName, s, ts, prev);
    var nrest := Select(isName, s, rest, text);
    var d := if isName(prev, text) then 1 else 0;
    assert ns[d..] == nrest;
    if t < d {
      k := 0;
      assert TextBefore(s, ts, 0, prev) == prev;
    } else {
      assert ns[t] == nrest[t - d];
      var k0 := ChosenIndex(isName, s, rest, text, t - d);
      ShiftIndex(isName, s, ts, k0, prev);
      k := k0 + 1;
    }
  }

  /** Conversely, every token the rule accepts after the token before it is selected. */
  lemma {:induction false} AcceptedAreChosen(isName: NameRule, s: seq<byte>, ts: seq<Scan>, prev: seq<byte>)
    requires Spans(s, ts)
    ensures var ns := Select(isName, s, ts, prev);
            forall k :: 0 <= k < |ts| && IsAccepted(isName, s, ts, prev, k) ==> NameOf(s, ts, k) in ns
  {
    if ts != [] {
      var text := TextOf(s, ts, 0);
      var rest := ts[1..];
      AcceptedAreChosen(isName, s, rest, text);
      var ns := Select(isName, s, ts, prev);
      var nrest := Select(isName, s, rest, text);
      assert forall n :: n in nrest ==> n in ns;
      forall k | 0 <= k < |ts| && IsAccepted(isName, s, ts, prev, k)
        ensures NameOf(s, ts, k) in ns
      {
        if k > 0 {
          ShiftIndex(isName, s, ts, k - 1, prev);
        }
      }
    }
  }

  /** Token `k + 1` of `ts` is token `k` of its tail, accepted or not alike. */
  lemma ShiftIndex(isName: NameRule, s: seq<byte>, ts: seq<Scan>, k: nat, prev: seq<byte>)
    requires Spans(s, ts) && k + 1 < |ts|
    ensures Spans(s, ts[1..]) && NameOf(s, ts, k + 1) == NameOf(s, ts[1..], k)
    ensures IsAccepted(isName, s, ts, prev, k + 1) == IsAccepted(isName, s, ts[1..], TextOf(s, ts, 0), k)
  {
    assert ts[k + 1] == ts[1..][k];
    if k > 0 {
      assert ts[k] == ts[1..][k - 1];
    }
  }

  /** `n` spans a word or a single punctuation byte that does not open markup, and holds its token text. */
  ghost predicate IsTextTokenName(s: seq<byte>, lim: nat, n: GlobalName)
    requires lim <= |s| && n.start <= n.end <= lim
  {
    && (IsWord(s, n.start, n.end, lim) || IsPunctToken(s, n.start, n.end, lim))
    && MarkupEnd(s, n.start, lim).None?
    && n.text == TokenText(s, n.start, n.end)
  }

  /** The token -parseNonMarkupToken returns is a text token, named by its token text. */
  lemma FirstIsTextToken(s: seq<byte>, i: nat, lim: nat)
    requires i <= lim <= |s| && NextNonMarkup(s, i, lim).Token?
    ensures var r := NextNonMarkup(s, i, lim);
            IsTextTokenName(s, lim, GlobalName(TokenText(s, r.start, r.end), r.start, r.end))
  {
    NonMarkupTokenIsTextToken(s, i, lim);
    NonMarkupTokenShape(s, i, lim);
  }

  /**
   * Every reported name is a word or a single punctuation byte that does not
   * open markup, with the text the token buffer holds for it.
   */
  lemma {:induction false} NamesAreTextTokens(isName: NameRule, s: seq<byte>, i: nat, lim: nat, prev: seq<byte>)
    requires i <= lim <= |s|
    ensures var ns := NamesFrom(isName, s, i, lim, prev);
            forall t :: 0 <= t < |ns| ==> IsTextTokenName(s, lim, ns[t])
    decreases lim - i
  {
    match NextNonMarkup(s, i, lim)
    case EndOfInput =>
    case Token(b, e) =>
      var text := TokenText(s, b, e);
      NamesAreTextTokens(isName, s, e, lim, text);
      NamesStep(isName, s, i, lim, prev);
      if isName(prev, text) {
        FirstIsTextToken(s, i, lim);
        PrependTextToken(s, lim, GlobalName(text, b, e), NamesFrom(isName, s, e, lim, text));
      }
  }

  lemma PrependTextToken(s: seq<byte>, lim: nat, n: GlobalName, rest: seq<GlobalName>)
    requires lim <= |s| && n.start <= n.end <= lim && IsTextTokenName(s, lim, n)
    requires forall t :: 0 <= t < |rest| ==> rest[t].start <= rest[t].end <= lim && IsTextTokenName(s, lim, rest[t])
    ensures forall t :: 0 <= t < |[n] + rest| ==> IsTextTokenName(s, lim, ([n] + rest)[t])
  {
    assert forall t :: 0 < t < |[n] + rest| ==> ([n] + rest)[t] == rest[t - 1];
  }

  /**
   * The globals parser: the inherited doc parser state, reached through
   * `parser`, plus the lookback window.
   */
  class CocoaGlobalsDocParser {
    /** The AKDocParser part of the object: cursor, data and token buffer `_token`. */
    const parser: DocParser
    /** `_prevToken`: the text of the previous token, `prevTokenLen` bytes long. */
    const prevToken: array<byte>
    var prevTokenLen: nat
    /** `_prevTokenStart`, `_prevTokenEnd`, `_currTokenStart`, `_currTokenEnd`, as offsets into the scanned bytes. */
    var prevTokenStart: nat
    var prevTokenEnd: nat
    var currTokenStart: nat
    var currTokenEnd: nat

    /** The window between two tokens: the previous token's text fits its buffer and its span is behind the cursor. */
    ghost predicate Ready()
      reads this, parser
    {
      parser.Valid() && prevToken.Length == TokenBufferSize && prevToken != parser.token
      && prevTokenLen <= MaxTokenLen
      && prevTokenStart <= prevTokenEnd <= parser.current
    }

    /** The window while a token is current: previous span, then current span, then the cursor. */
    ghost predicate Valid()
      reads this, parser
    {
      Ready() && prevTokenEnd <= currTokenStart <= currTokenEnd <= parser.current
    }

    ghost function PrevText(): seq<byte>
      reads this, prevToken
      requires prevTokenLen <= prevToken.Length
    {
      prevToken[..prevTokenLen]
    }

    constructor (p: DocParser)
      requires p.Valid()
      ensures Valid() && parser == p && fresh(prevToken)
      ensures prevTokenLen == 0 && currTokenEnd == 0
    {
      parser := p;
      prevToken := new byte[TokenBufferSize];
      prevTokenLen, prevTokenStart, prevTokenEnd, currTokenStart, currTokenEnd := 0, 0, 0, 0, 0;
    }

    /** Makes the next non-markup token current; at the end of the range the current span is empty, at the cursor. */
    method ReadCurrent() returns (found: bool)
      requires Ready()
      modifies parser`current, parser`tokenLen, parser`tokenStart, parser.token
      modifies this`currTokenStart, this`currTokenEnd
      ensures Valid()
      ensures var r := NextNonMarkup(parser.data, old(parser.current), parser.limit);
              && found == r.Token?
              && (found ==> currTokenStart == r.start && currTokenEnd == r.end && parser.current == r.end
                            && parser.TokenBytes() == TokenText(parser.data, r.start, r.end))
              && (!found ==> parser.current == parser.limit && currTokenStart == currTokenEnd == parser.current)
    {
      found := parser.ParseNonMarkupToken();
      if found {
        currTokenStart, currTokenEnd := parser.tokenStart, parser.current;
      } else {
        currTokenStart, currTokenEnd := parser.current, parser.current;
      }
    }

    /** The current token becomes the previous one: its text is copied into `_prevToken` and its span moves over. */
    method ShiftWindow()
      requires Valid()
      modifies this`prevTokenLen, this`prevTokenStart, this`prevTokenEnd, prevToken
      ensures Ready()
      ensures PrevText() == old(parser.TokenBytes())
      ensures prevTokenStart == currTokenStart && prevTokenEnd == currTokenEnd
    {
      var n := parser.tokenLen;
      var k := 0;
      while k < n
        invariant 0 <= k <= n
        invariant prevToken[..k] == parser.token[..k]
      {
        prevToken[k] := parser.token[k];
        k := k + 1;
      }
      prevTokenLen := n;
      prevTokenStart, prevTokenEnd := currTokenStart, currTokenEnd;
    }

    /**
     * The state between two steps of the scan of a section: the current
     * token is the one read from `pos`, and the names reported so far
     * followed by those the rest of the scan reports make up `all`.
     */
    ghost predicate Scanning(isName: NameRule, pos: nat, names: seq<GlobalName>, all: seq<GlobalName>)
      reads this, parser, parser.token, prevToken
    {
      && Valid() && pos <= parser.limit
      && NextNonMarkup(parser.data, pos, parser.limit) == Token(currTokenStart, currTokenEnd)
      && parser.current == currTokenEnd
      && parser.TokenBytes() == TokenText(parser.data, currTokenStart, currTokenEnd)
      && names + NamesFrom(isName, parser.data, pos, parser.limit, PrevText()) == all
    }

    /** Applies the rule to the window, appending the current token to `names` when it accepts it. */
    method Record(isName: NameRule, names: seq<GlobalName>) returns (names': seq<GlobalName>)
      requires Valid()
      ensures names' == names + if isName(PrevText(), parser.TokenBytes())
                                then [GlobalName(parser.TokenBytes(), currTokenStart, currTokenEnd)] else []
    {
      var curr := parser.token[..parser.tokenLen];
      names' := names;
      if isName(prevToken[..prevTokenLen], curr) {
        names' := names + [GlobalName(curr, currTokenStart, currTokenEnd)];
      }
    }

    /** One step of the scan: decide on the current token, shift the window, read the next token. */
    method ScanStep(isName: NameRule, ghost pos: nat, names: seq<GlobalName>, ghost all: seq<GlobalName>)
      returns (names': seq<GlobalName>, more: bool, ghost pos': nat)
      requires Scanning(isName, pos, names, all)
      modifies parser`current, parser`tokenLen, parser`tokenStart, parser.token
      modifies this`prevTokenLen, this`prevTokenStart, this`prevTokenEnd, this`currTokenStart, this`currTokenEnd, prevToken
      ensures Valid()
      ensures more ==> old(parser.current) < parser.current && Scanning(isName, pos', names', all)
      ensures !more ==> parser.current == parser.limit && names' == all
    {
      ghost var text := parser.TokenBytes();
      ghost var prev := PrevText();
      names' := Record(isName, names);
      WindowStep(isName, parser.data, pos, parser.limit, prev, names, names', all);
      ShiftWindow();
      pos' := parser.current;
      more := ReadCurrent();
      NamesStep(isName, parser.data, pos', parser.limit, text);
    }

    /** Starts the scan of bytes [lo, hi) of the original file with an empty window and reads the first token. */
    method StartScan(lo: nat, hi: nat, isName: NameRule) returns (more: bool)
      requires Valid() && lo <= hi <= |parser.original|
      modifies parser`data, parser`current, parser`limit, parser`tokenLen, parser`tokenStart, parser.token
      modifies this`prevTokenLen, this`prevTokenStart, this`prevTokenEnd, this`currTokenStart, this`currTokenEnd
      ensures Valid() && parser.data == parser.original && parser.limit == hi
      ensures more ==> Scanning(isName, lo, [], NamesFrom(isName, parser.data, lo, hi, []))
      ensures !more ==> parser.current == hi && NamesFrom(isName, parser.data, lo, hi, []) == []
    {
      parser.ScanOriginal(lo, hi);
      prevTokenLen, prevTokenStart, prevTokenEnd := 0, lo, lo;
      assert PrevText() == [];
      more := ReadCurrent();
      NamesStep(isName, parser.data, lo, hi, []);
    }

    /**
     * -_parseNamesOfGlobalsInFileSection: scans bytes [lo, hi) of the
     * original file (one file section) and reports the names the rule picks,
     * in order.
     */
    method ParseNamesOfGlobalsInFileSection(lo: nat, hi: nat, isName: NameRule) returns (names: seq<GlobalName>)
      requires Valid() && lo <= hi <= |parser.original|
      modifies parser`data, parser`current, parser`limit, parser`tokenLen, parser`tokenStart, parser.token
      modifies this`prevTokenLen, this`prevTokenStart, this`prevTokenEnd, this`currTokenStart, this`currTokenEnd, prevToken
      ensures Valid() && parser.data == parser.original
      ensures names == NamesFrom(isName, parser.original, lo, hi, [])
    {
      var more := StartScan(lo, hi, isName);
      names := [];
      ghost var all := NamesFrom(isName, parser.data, lo, hi, []);
      ghost var pos: nat := lo;
      while more
        invariant Valid() && parser.data == parser.original && parser.limit == hi
        invariant more ==> Scanning(isName, pos, names, all)
        invariant !more ==> parser.current == hi && names == all
        decreases hi - parser.current, more
      {
        names, more, pos := ScanStep(isName, pos, names, all);
      }
    }
  }

  /** After the rule has decided on the token read from `pos`, the names so far and those after that token make up `all`. */
  lemma WindowStep(isName: NameRule, s: seq<byte>, pos: nat, lim: nat, prev: seq<byte>,
                   names: seq<GlobalName>, names': seq<GlobalName>, all: seq<GlobalName>)
    requires pos <= lim <= |s| && NextNonMarkup(s, pos, lim).Token?
    requires names + NamesFrom(isName, s, pos, lim, prev) == all
    requires var r := NextNonMarkup(s, pos, lim);
             var text := TokenText(s, r.start, r.end);
             names' == names + if isName(prev, text) then [GlobalName(text, r.start, r.end)] else []
    ensures var r := NextNonMarkup(s, pos, lim);
            names' + NamesFrom(isName, s, r.end, lim, TokenText(s, r.start, r.end)) == all
  {
    NamesStep(isName, s, pos, lim, prev);
    var r := NextNonMarkup(s, pos, lim);
    var text := TokenText(s, r.start, r.end);
    var head := if isName(prev, text) then [GlobalName(text, r.start, r.end)] else [];
    var rest := NamesFrom(isName, s, r.end, lim, text);
    assert NamesFrom(isName, s, pos, lim, prev) == head + rest;
    ConcatAssoc(names, head, rest);
  }

  lemma ConcatAssoc(a: seq<GlobalName>, b: seq<GlobalName>, c: seq<GlobalName>)
    ensures a + (b + c) == (a + b) + c
  {
  }

  /**
   * Everything the globals parser reports for a section lies inside that
   * section: the names are spans of [lo, hi), in order and disjoint.
   */
  lemma NamesInSection(isName: NameRule, s: seq<byte>, lo: nat, hi: nat)
    requires lo <= hi <= |s|
    ensures var ns := NamesFrom(isName, s, lo, hi, []);
            && (forall t :: 0 <= t < |ns| ==> lo <= ns[t].start < ns[t].end <= hi)
            && (forall t, u :: 0 <= t < u < |ns| ==> ns[t].end <= ns[u].start)
  {
    var ns := NamesFrom(isName, s, lo, hi, []);
    forall t, u | 0 <= t < u < |ns| ensures ns[t].end <= ns[u].start {
      OrderedStep(ns, t, u);
    }
  }

  lemma {:induction false} OrderedStep(ns: seq<GlobalName>, t: nat, u: nat)
    requires t < u < |ns|
    requires forall v :: 0 <= v < |ns| ==> ns[v].start < ns[v].end
    requires forall v :: 0 < v < |ns| ==> ns[v - 1].end <= ns[v].start
    ensures ns[t].end <= ns[u].start
    decreases u - t
  {
    if u > t + 1 {
      OrderedStep(ns, t, u - 1);
    }
  }
}
