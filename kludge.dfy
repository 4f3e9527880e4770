/**
 * The offset-preserving rewrite +kludgeHTMLForTiger: applies to Tiger-era
 * doc files before they are parsed.  Tiger marks method docs with
 * `<div class="mach4">name</div>` and some pages use `<span>` where a
 * top-level heading belongs; the rewrite turns these into h3 and h1 tags by
 * overwriting the tag name and padding it with blanks, so that no byte moves
 * and offsets found in the rewritten data are valid in the original.
 *
 *   <div class="mach4">   becomes   <h3  class="mach4">
 *   </div>  (the first one after such a div)   becomes   </h3 >
 *   <span   (followed by `>` or whitespace)   becomes   <h1
 *   </span>               becomes   </h1  >
 *
 * The pass is defined over any table of same-length replacements
 * (KludgedFrom); the Tiger table is MARKERS.
 */
module Kludge {
  import opened Bytes

  const DIV_OPEN: seq<byte> :=
    [0x3C, 0x64, 0x69, 0x76, 0x20, 0x63, 0x6C, 0x61, 0x73, 0x73, 0x3D, 0x22, 0x6D, 0x61, 0x63, 0x68, 0x34, 0x22, 0x3E]
  const H3_OPEN: seq<byte> :=
    [0x3C, 0x68, 0x33, 0x20, 0x20, 0x63, 0x6C, 0x61, 0x73, 0x73, 0x3D, 0x22, 0x6D, 0x61, 0x63, 0x68, 0x34, 0x22, 0x3E]
  const DIV_CLOSE: seq<byte> := [0x3C, 0x2F, 0x64, 0x69, 0x76, 0x3E]
  const H3_CLOSE: seq<byte> := [0x3C, 0x2F, 0x68, 0x33, 0x20, 0x3E]
  const SPAN_OPEN: seq<byte> := [0x3C, 0x73, 0x70, 0x61, 0x6E]
  const H1_OPEN: seq<byte> := [0x3C, 0x68, 0x31, 0x20, 0x20]
  const SPAN_CLOSE: seq<byte> := [0x3C, 0x2F, 0x73, 0x70, 0x61, 0x6E, 0x3E]
  const H1_CLOSE: seq<byte> := [0x3C, 0x2F, 0x68, 0x31, 0x20, 0x20, 0x3E]

  /** Bytes `k` and on of the pattern `p` sit in `s` from `i + k` on. */
  predicate MatchFrom(s: seq<byte>, i: nat, p: seq<byte>, k: nat)
    requires i + |p| <= |s|
    decreases |p| - k
  {
    k >= |p| || (s[i + k] == p[k] && MatchFrom(s, i, p, k + 1))
  }

  /** `s` holds the pattern `p` at position `i`. */
  predicate HasAt(s: seq<byte>, i: nat, p: seq<byte>)
  {
    i + |p| <= |s| && MatchFrom(s, i, p, 0)
  }

  lemma {:induction false} MatchFromIff(s: seq<byte>, i: nat, p: seq<byte>, k: nat)
    requires i + |p| <= |s|
    ensures MatchFrom(s, i, p, k) <==> forall m :: k <= m < |p| ==> s[i + m] == p[m]
    decreases |p| - k
  {
    if k < |p| {
      MatchFromIff(s, i, p, k + 1);
    }
  }

  /** A pattern occurrence, byte by byte. */
  lemma HasAtIff(s: seq<byte>, i: nat, p: seq<byte>)
    ensures HasAt(s, i, p) <==> i + |p| <= |s| && forall m :: 0 <= m < |p| ==> s[i + m] == p[m]
  {
    if i + |p| <= |s| {
      MatchFromIff(s, i, p, 0);
    }
  }

  /** Two patterns that differ at `k` are never both at the same position. */
  lemma NotBoth(s: seq<byte>, i: nat, p: seq<byte>, q: seq<byte>, k: nat)
    requires HasAt(s, i, p) && k < |p| && k < |q| && p[k] != q[k]
    ensures !HasAt(s, i, q)
  {
    HasAtIff(s, i, p);
    HasAtIff(s, i, q);
  }

  /**
   * One entry of a rewrite table: the marker's bytes, the bytes written
   * over them, whether it is only rewritten inside a mach4 div, whether it
   * must be a whole tag name (followed by `>` or whitespace), and whether it
   * opens or closes the div.
   */
  datatype Marker = Marker(tag: seq<byte>, repl: seq<byte>, inDivOnly: bool, wholeName: bool, opens: bool, closes: bool)

  /** Every replacement has its marker's length, and every marker is a tag. */
  predicate WellFormed(table: seq<Marker>)
  {
    forall n :: 0 <= n < |table| ==>
      |table[n].repl| == |table[n].tag| && |table[n].tag| > 0 && table[n].tag[0] == LT
  }

  /** The Tiger markers, in the order they are tried at each `<`. */
  const MARKERS: seq<Marker> := [
    Marker(DIV_OPEN, H3_OPEN, false, false, true, false),
    Marker(DIV_CLOSE, H3_CLOSE, true, false, false, true),
    Marker(SPAN_OPEN, H1_OPEN, false, true, false, false),
    Marker(SPAN_CLOSE, H1_CLOSE, false, false, false, false)
  ]

  lemma MarkersWellFormed()
    ensures WellFormed(MARKERS)
  {
  }

  /** The patterns `p` and `q` disagree at an index both of them have. */
  ghost predicate Differ(p: seq<byte>, q: seq<byte>)
  {
    exists k :: 0 <= k < |p| && k < |q| && p[k] != q[k]
  }

  /** No two markers of the table can start at the same position. */
  ghost predicate Exclusive(table: seq<Marker>)
  {
    forall n, m :: 0 <= n < m < |table| ==> Differ(table[n].tag, table[m].tag)
  }

  /** The Tiger markers are pairwise exclusive, so the order they are tried in decides nothing. */
  lemma MarkersExclusive()
    ensures Exclusive(MARKERS)
  {
    forall n, m | 0 <= n < m < |MARKERS| ensures Differ(MARKERS[n].tag, MARKERS[m].tag) {
      var p, q := MARKERS[n].tag, MARKERS[m].tag;
      assert 2 < |p| && 2 < |q|;
      var k := if p[1] != q[1] then 1 else 2;
      assert p[k] != q[k];
    }
  }

  /** In an exclusive table, two different entries never occur at the same position. */
  lemma ExclusiveNotBoth(table: seq<Marker>, s: seq<byte>, i: nat, n: nat, m: nat)
    requires Exclusive(table) && n < |table| && m < |table| && n != m
    requires HasAt(s, i, table[n].tag)
    ensures !HasAt(s, i, table[m].tag)
  {
    var a, b := if n < m then n else m, if n < m then m else n;
    assert Differ(table[a].tag, table[b].tag);
    var k :| 0 <= k < |table[a].tag| && k < |table[b].tag| && table[a].tag[k] != table[b].tag[k];
    NotBoth(s, i, table[n].tag, table[m].tag, k);
  }

  /** The marker `m` occurs at `i`. */
  predicate MarkerAt(s: seq<byte>, i: nat, m: Marker)
  {
    HasAt(s, i, m.tag)
    && (m.wholeName ==> i + |m.tag| < |s| && (s[i + |m.tag|] == GT || IsSpace(s[i + |m.tag|])))
  }

  /** The marker `m` occurs at `i` and is rewritten in the current div state. */
  predicate Applies(s: seq<byte>, i: nat, inDiv: bool, m: Marker)
  {
    MarkerAt(s, i, m) && (m.inDivOnly ==> inDiv)
  }

  /** The div state after rewriting `m`. */
  function After(m: Marker, inDiv: bool): bool
  {
    if m.opens then true else if m.closes then false else inDiv
  }

  /** Position `p` lies inside a marker of `table` that starts at `i`. */
  predicate Covers(table: seq<Marker>, s: seq<byte>, i: nat, p: nat)
  {
    exists n :: 0 <= n < |table| && MarkerAt(s, i, table[n]) && i <= p < i + |table[n].tag|
  }

  /** What the rewrite does at one position: copy the byte, or rewrite table entry `n`. */
  datatype Choice = Copy | Rewrite(n: nat)

  /** The first of the entries `n` and on of `table` that applies at `i`. */
  function FirstMarker(table: seq<Marker>, s: seq<byte>, i: nat, inDiv: bool, n: nat): (c: Choice)
    requires n <= |table|
    ensures c.Rewrite? ==> n <= c.n < |table| && Applies(s, i, inDiv, table[c.n])
    decreases |table| - n
  {
    if n == |table| then Copy
    else if Applies(s, i, inDiv, table[n]) then Rewrite(n)
    else FirstMarker(table, s, i, inDiv, n + 1)
  }

  /**
   * The choice the rewrite makes at position `i` of `s`; `inDiv` records that
   * a mach4 div has been opened and its `</div>` not yet seen.
   */
  function Choose(table: seq<Marker>, s: seq<byte>, i: nat, inDiv: bool): (c: Choice)
    requires i < |s|
    ensures c.Rewrite? ==> c.n < |table| && Applies(s, i, inDiv, table[c.n])
    ensures s[i] != LT ==> c == Copy
  {
    if s[i] != LT then Copy else FirstMarker(table, s, i, inDiv, 0)
  }

  /** The rewritten form of `s` from position `i` on, scanned left to right. */
  function KludgedFrom(table: seq<Marker>, s: seq<byte>, i: nat, inDiv: bool): (r: seq<byte>)
    requires WellFormed(table) && i <= |s|
    ensures |r| == |s| - i
    decreases |s| - i
  {
    if i == |s| then []
    else
      match Choose(table, s, i, inDiv)
      case Copy => [s[i]] + KludgedFrom(table, s, i + 1, inDiv)
      case Rewrite(n) =>
        table[n].repl + KludgedFrom(table, s, i + |table[n].tag|, After(table[n], inDiv))
  }

  /** The Tiger rewrite of a whole file; it starts outside any mach4 div. */
  function KludgeHTML(s: seq<byte>): (r: seq<byte>)
    ensures |r| == |s|
  {
    MarkersWellFormed();
    KludgedFrom(MARKERS, s, 0, false)
  }

  /** With no marker at `i`, the byte there is copied. */
  lemma {:induction false} FirstMarkerNone(table: seq<Marker>, s: seq<byte>, i: nat, inDiv: bool, n: nat)
    requires n <= |table|
    requires forall q :: n <= q < |table| ==> !MarkerAt(s, i, table[q])
    ensures FirstMarker(table, s, i, inDiv, n) == Copy
    decreases |table| - n
  {
    if n < |table| {
      FirstMarkerNone(table, s, i, inDiv, n + 1);
    }
  }

  /** The first marker that applies is the one rewritten. */
  lemma {:induction false} FirstMarkerPicks(table: seq<Marker>, s: seq<byte>, i: nat, inDiv: bool, n: nat, j: nat)
    requires n <= j < |table|
    requires Applies(s, i, inDiv, table[j])
    requires forall q :: n <= q < j ==> !Applies(s, i, inDiv, table[q])
    ensures FirstMarker(table, s, i, inDiv, n) == Rewrite(j)
    decreases j - n
  {
    if n < j {
      FirstMarkerPicks(table, s, i, inDiv, n + 1, j);
    }
  }

  /** Whether a marker sits at `off + k` in `s` depends only on the bytes from there on. */
  lemma MarkerAgrees(s: seq<byte>, t: seq<byte>, off: nat, k: nat, m: Marker)
    requires k < |t| && off + |t| == |s|
    requires forall x :: k <= x < |t| ==> s[off + x] == t[x]
    ensures MarkerAt(s, off + k, m) <==> MarkerAt(t, k, m)
  {
    HasAtIff(s, off + k, m.tag);
    HasAtIff(t, k, m.tag);
    if k + |m.tag| < |t| {
      assert s[off + k + |m.tag|] == t[k + |m.tag|];
    }
  }

  lemma {:induction false} FirstMarkerAgrees(table: seq<Marker>, s: seq<byte>, t: seq<byte>, off: nat, k: nat, inDiv: bool, n: nat)
    requires k < |t| && off + |t| == |s| && n <= |table|
    requires forall x :: k <= x < |t| ==> s[off + x] == t[x]
    ensures FirstMarker(table, s, off + k, inDiv, n) == FirstMarker(table, t, k, inDiv, n)
    decreases |table| - n
  {
    if n < |table| {
      MarkerAgrees(s, t, off, k, table[n]);
      FirstMarkerAgrees(table, s, t, off, k, inDiv, n + 1);
    }
  }

  /**
   * The choice made at `off + k` in `s` looks only at the bytes from there
   * on: it is the choice made at `k` in any `t` that `s` agrees with from
   * `off` on.
   */
  lemma ChooseAgrees(table: seq<Marker>, s: seq<byte>, t: seq<byte>, off: nat, k: nat, inDiv: bool)
    requires k < |t| && off + |t| == |s|
    requires forall x :: k <= x < |t| ==> s[off + x] == t[x]
    ensures Choose(table, s, off + k, inDiv) == Choose(table, t, k, inDiv)
  {
    FirstMarkerAgrees(table, s, t, off, k, inDiv, 0);
  }

  /** The rewrite, unfolded at a byte it copies. */
  lemma UnfoldCopy(table: seq<Marker>, s: seq<byte>, i: nat, inDiv: bool)
    requires WellFormed(table) && i < |s| && Choose(table, s, i, inDiv) == Copy
    ensures KludgedFrom(table, s, i, inDiv) == [s[i]] + KludgedFrom(table, s, i + 1, inDiv)
  {
  }

  /** The rewrite, unfolded at a marker it rewrites. */
  lemma UnfoldRewrite(table: seq<Marker>, s: seq<byte>, i: nat, inDiv: bool, n: nat)
    requires WellFormed(table) && i < |s| && Choose(table, s, i, inDiv) == Rewrite(n)
    ensures n < |table| && i + |table[n].tag| <= |s|
    ensures KludgedFrom(table, s, i, inDiv)
         == table[n].repl + KludgedFrom(table, s, i + |table[n].tag|, After(table[n], inDiv))
  {
  }

  /** The rewrite from `off + k` in `s` is the rewrite from `k` in any `t` that `s` agrees with from `off` on. */
  lemma {:induction false} KludgeAgrees(table: seq<Marker>, s: seq<byte>, t: seq<byte>, off: nat, k: nat, inDiv: bool)
    requires WellFormed(table)
    requires k <= |t| && off + |t| == |s|
    requires forall x :: k <= x < |t| ==> s[off + x] == t[x]
    ensures KludgedFrom(table, s, off + k, inDiv) == KludgedFrom(table, t, k, inDiv)
    decreases |t| - k, 1
  {
    if k < |t| {
      ChooseAgrees(table, s, t, off, k, inDiv);
      match Choose(table, t, k, inDiv)
      case Copy => CopyAgrees(table, s, t, off, k, inDiv);
      case Rewrite(n) => RewriteAgrees(table, s, t, off, k, inDiv, n);
    }
  }

  /** KludgeAgrees at a byte both rewrites copy. */
  lemma {:induction false} CopyAgrees(table: seq<Marker>, s: seq<byte>, t: seq<byte>, off: nat, k: nat, inDiv: bool)
    requires WellFormed(table)
    requires k < |t| && off + |t| == |s|
    requires forall x :: k <= x < |t| ==> s[off + x] == t[x]
    requires Choose(table, s, off + k, inDiv) == Copy && Choose(table, t, k, inDiv) == Copy
    ensures KludgedFrom(table, s, off + k, inDiv) == KludgedFrom(table, t, k, inDiv)
    decreases |t| - k, 0
  {
    calc {
      KludgedFrom(table, s, off + k, inDiv);
      { UnfoldCopy(table, s, off + k, inDiv); }
      [s[off + k]] + KludgedFrom(table, s, off + k + 1, inDiv);
      { KludgeAgrees(table, s, t, off, k + 1, inDiv);
        assert off + (k + 1) == off + k + 1; }
      [t[k]] + KludgedFrom(table, t, k + 1, inDiv);
      { UnfoldCopy(table, t, k, inDiv); }
      KludgedFrom(table, t, k, inDiv);
    }
  }

  /** KludgeAgrees at a marker both rewrites replace. */
  lemma {:induction false} RewriteAgrees(table: seq<Marker>, s: seq<byte>, t: seq<byte>, off: nat, k: nat, inDiv: bool, n: nat)
    requires WellFormed(table)
    requires k < |t| && off + |t| == |s|
    requires forall x :: k <= x < |t| ==> s[off + x] == t[x]
    requires Choose(table, s, off + k, inDiv) == Rewrite(n) && Choose(table, t, k, inDiv) == Rewrite(n)
    ensures KludgedFrom(table, s, off + k, inDiv) == KludgedFrom(table, t, k, inDiv)
    decreases |t| - k, 0
  {
    UnfoldRewrite(table, t, k, inDiv, n);
    UnfoldRewrite(table, s, off + k, inDiv, n);
    var len := |table[n].tag|;
    var d := After(table[n], inDiv);
    assert off + (k + len) == off + k + len;
    KludgeAgrees(table, s, t, off, k + len, d);
  }

  /**
   * Position `p` lies inside a marker that the pass, started at `i` in div
   * state `inDiv`, actually rewrites: the choices followed are the pass's own.
   */
  ghost predicate RewriteCovers(table: seq<Marker>, s: seq<byte>, i: nat, inDiv: bool, p: nat)
    requires WellFormed(table) && i <= |s|
    decreases |s| - i
  {
    i <= p < |s|
    && match Choose(table, s, i, inDiv)
       case Copy => RewriteCovers(table, s, i + 1, inDiv, p)
       case Rewrite(n) =>
         p < i + |table[n].tag| || RewriteCovers(table, s, i + |table[n].tag|, After(table[n], inDiv), p)
  }

  /** Indexing past the first part of a concatenation. */
  lemma IndexPastPrefix(x: seq<byte>, y: seq<byte>, q: nat)
    requires |x| <= q < |x| + |y|
    ensures (x + y)[q] == y[q - |x|]
  {
  }

  /** Every byte outside the markers the pass rewrites is copied unchanged. */
  lemma {:induction false} KludgeKeepsUnrewritten(table: seq<Marker>, s: seq<byte>, i: nat, inDiv: bool, p: nat)
    requires WellFormed(table) && i <= p < |s|
    requires !RewriteCovers(table, s, i, inDiv, p)
    ensures KludgedFrom(table, s, i, inDiv)[p - i] == s[p]
    decreases |s| - i
  {
    match Choose(table, s, i, inDiv)
    case Copy =>
      UnfoldCopy(table, s, i, inDiv);
      if i < p {
        KludgeKeepsUnrewritten(table, s, i + 1, inDiv, p);
        IndexPastPrefix([s[i]], KludgedFrom(table, s, i + 1, inDiv), p - i);
      }
    case Rewrite(n) =>
      UnfoldRewrite(table, s, i, inDiv, n);
      var len := |table[n].tag|;
      var d := After(table[n], inDiv);
      KludgeKeepsUnrewritten(table, s, i + len, d, p);
      IndexPastPrefix(table[n].repl, KludgedFrom(table, s, i + len, d), p - i);
  }

  /** A position inside a rewritten marker lies inside a marker occurrence of the table, starting at `j`. */
  lemma {:induction false} RewrittenAreMarkers(table: seq<Marker>, s: seq<byte>, i: nat, inDiv: bool, p: nat)
      returns (j: nat)
    requires WellFormed(table) && i <= |s|
    requires RewriteCovers(table, s, i, inDiv, p)
    ensures i <= j <= p && Covers(table, s, j, p)
    decreases |s| - i
  {
    match Choose(table, s, i, inDiv)
    case Copy =>
      j := RewrittenAreMarkers(table, s, i + 1, inDiv, p);
    case Rewrite(n) =>
      var len := |table[n].tag|;
      if p < i + len {
        j := i;
      } else {
        j := RewrittenAreMarkers(table, s, i + len, After(table[n], inDiv), p);
      }
  }

  /**
   * The rewrite changes no byte outside a marker: every position where the
   * output differs from the input lies inside a marker of the table, and
   * the marker's start `j` is returned.
   */
  lemma KludgeChangesOnlyMarkers(table: seq<Marker>, s: seq<byte>, i: nat, inDiv: bool, p: nat)
      returns (j: nat)
    requires WellFormed(table) && i <= p < |s|
    requires KludgedFrom(table, s, i, inDiv)[p - i] != s[p]
    ensures i <= j <= p && Covers(table, s, j, p)
  {
    if !RewriteCovers(table, s, i, inDiv, p) {
      KludgeKeepsUnrewritten(table, s, i, inDiv, p);
    }
    j := RewrittenAreMarkers(table, s, i, inDiv, p);
  }

  /**
   * Offsets survive the rewrite: the copy has the original's length, every
   * byte outside the markers the pass rewrites is the original byte, and so
   * is, in particular, every byte outside all marker occurrences.
   */
  lemma KludgePreservesOffsets(s: seq<byte>)
    ensures |KludgeHTML(s)| == |s|
    ensures forall p: nat :: p < |s| && !RewriteCovers(MARKERS, s, 0, false, p) ==> KludgeHTML(s)[p] == s[p]
    ensures forall p: nat :: p < |s| && (forall i: nat :: i <= p ==> !Covers(MARKERS, s, i, p)) ==> KludgeHTML(s)[p] == s[p]
  {
    MarkersWellFormed();
    forall p: nat | p < |s| && !RewriteCovers(MARKERS, s, 0, false, p)
      ensures KludgeHTML(s)[p] == s[p]
    {
      KludgeKeepsUnrewritten(MARKERS, s, 0, false, p);
    }
    forall p: nat | p < |s| && (forall i: nat :: i <= p ==> !Covers(MARKERS, s, i, p))
      ensures !RewriteCovers(MARKERS, s, 0, false, p)
    {
      if RewriteCovers(MARKERS, s, 0, false, p) {
        var j := RewrittenAreMarkers(MARKERS, s, 0, false, p);
      }
    }
  }

  lemma ConsAssoc(x: byte, mid: seq<byte>, k: seq<byte>, whole: seq<byte>)
    requires whole == [x] + mid
    ensures [x] + (mid + k) == whole + k
  {
  }

  /** A byte that starts no marker is copied as it is. */
  lemma UnfoldPlain(table: seq<Marker>, s: seq<byte>, i: nat, inDiv: bool)
    requires WellFormed(table) && i < |s|
    requires s[i] != LT || forall q :: 0 <= q < |table| ==> !MarkerAt(s, i, table[q])
    ensures KludgedFrom(table, s, i, inDiv) == [s[i]] + KludgedFrom(table, s, i + 1, inDiv)
  {
    if s[i] == LT {
      FirstMarkerNone(table, s, i, inDiv, 0);
    }
    UnfoldCopy(table, s, i, inDiv);
  }

  /** A run of bytes without `<` goes through the rewrite unchanged. */
  lemma {:induction false} KludgePlainRun(table: seq<Marker>, s: seq<byte>, i: nat, j: nat, inDiv: bool)
    requires WellFormed(table) && i <= j <= |s|
    requires forall k :: i <= k < j ==> s[k] != LT
    ensures KludgedFrom(table, s, i, inDiv) == s[i..j] + KludgedFrom(table, s, j, inDiv)
    decreases j - i
  {
    if i < j {
      UnfoldPlain(table, s, i, inDiv);
      KludgePlainRun(table, s, i + 1, j, inDiv);
      assert s[i..j] == [s[i]] + s[i + 1..j];
      ConsAssoc(s[i], s[i + 1..j], KludgedFrom(table, s, j, inDiv), s[i..j]);
    }
  }

  /** Data without any marker passes through the rewrite unchanged. */
  lemma {:induction false} KludgeWithoutMarkers(table: seq<Marker>, s: seq<byte>, i: nat, inDiv: bool)
    requires WellFormed(table) && i <= |s|
    requires forall j: nat, p: nat :: i <= j ==> !Covers(table, s, j, p)
    ensures KludgedFrom(table, s, i, inDiv) == s[i..]
    decreases |s| - i
  {
    if i < |s| {
      assert !Covers(table, s, i, i);
      UnfoldPlain(table, s, i, inDiv);
      KludgeWithoutMarkers(table, s, i + 1, inDiv);
      assert s[i..] == [s[i]] + s[i + 1..];
    }
  }

  /** At a marker that applies and follows no earlier table entry, the step rewrites it. */
  lemma UnfoldMarker(table: seq<Marker>, s: seq<byte>, i: nat, inDiv: bool, j: nat)
    requires WellFormed(table) && i < |s| && j < |table|
    requires Applies(s, i, inDiv, table[j])
    requires forall q :: 0 <= q < j ==> !Applies(s, i, inDiv, table[q])
    ensures KludgedFrom(table, s, i, inDiv)
         == table[j].repl + KludgedFrom(table, s, i + |table[j].tag|, After(table[j], inDiv))
  {
    HasAtIff(s, i, table[j].tag);
    assert s[i] == LT;
    FirstMarkerPicks(table, s, i, inDiv, 0, j);
    UnfoldRewrite(table, s, i, inDiv, j);
  }

  /** `<div class="mach4">` is rewritten to `<h3  class="mach4">` and opens the div. */
  lemma UnfoldDivOpen(s: seq<byte>, i: nat, inDiv: bool)
    requires HasAt(s, i, DIV_OPEN)
    ensures KludgedFrom(MARKERS, s, i, inDiv) == H3_OPEN + KludgedFrom(MARKERS, s, i + |DIV_OPEN|, true)
  {
    MarkersWellFormed();
    UnfoldMarker(MARKERS, s, i, inDiv, 0);
  }

  /** Inside the div, `</div>` is rewritten to `</h3 >` and closes it. */
  lemma UnfoldDivClose(s: seq<byte>, i: nat)
    requires HasAt(s, i, DIV_CLOSE)
    ensures KludgedFrom(MARKERS, s, i, true) == H3_CLOSE + KludgedFrom(MARKERS, s, i + |DIV_CLOSE|, false)
  {
    MarkersWellFormed();
    NotBoth(s, i, DIV_CLOSE, DIV_OPEN, 1);
    UnfoldMarker(MARKERS, s, i, true, 1);
  }

  /** `<span` as a whole tag name is rewritten to `<h1  `. */
  lemma UnfoldSpanOpen(s: seq<byte>, i: nat, inDiv: bool)
    requires HasAt(s, i, SPAN_OPEN) && i + |SPAN_OPEN| < |s|
    requires s[i + |SPAN_OPEN|] == GT || IsSpace(s[i + |SPAN_OPEN|])
    ensures KludgedFrom(MARKERS, s, i, inDiv) == H1_OPEN + KludgedFrom(MARKERS, s, i + |SPAN_OPEN|, inDiv)
  {
    MarkersWellFormed();
    NotBoth(s, i, SPAN_OPEN, DIV_OPEN, 1);
    NotBoth(s, i, SPAN_OPEN, DIV_CLOSE, 1);
    UnfoldMarker(MARKERS, s, i, inDiv, 2);
  }

  /** `</span>` is rewritten to `</h1  >`. */
  lemma UnfoldSpanClose(s: seq<byte>, i: nat, inDiv: bool)
    requires HasAt(s, i, SPAN_CLOSE)
    ensures KludgedFrom(MARKERS, s, i, inDiv) == H1_CLOSE + KludgedFrom(MARKERS, s, i + |SPAN_CLOSE|, inDiv)
  {
    MarkersWellFormed();
    NotBoth(s, i, SPAN_CLOSE, DIV_OPEN, 1);
    NotBoth(s, i, SPAN_CLOSE, DIV_CLOSE, 2);
    NotBoth(s, i, SPAN_CLOSE, SPAN_OPEN, 1);
    UnfoldMarker(MARKERS, s, i, inDiv, 3);
  }

  /**
   * A Tiger method-doc marker `<div class="mach4">name</div>` becomes, after
   * the rewrite, h3 tags around the very same name bytes, and the div is
   * closed afterwards (TigerHeadings.Mach4IsMinorHeading reads it back as a
   * heading).
   */
  lemma KludgeMach4At(s: seq<byte>, i: nat, j: nat, inDiv: bool)
    requires HasAt(s, i, DIV_OPEN) && i + |DIV_OPEN| <= j && HasAt(s, j, DIV_CLOSE)
    requires forall k :: i + |DIV_OPEN| <= k < j ==> s[k] != LT
    ensures WellFormed(MARKERS)
    ensures KludgedFrom(MARKERS, s, i, inDiv)
         == H3_OPEN + s[i + |DIV_OPEN|..j] + H3_CLOSE + KludgedFrom(MARKERS, s, j + |DIV_CLOSE|, false)
  {
    MarkersWellFormed();
    var name := s[i + |DIV_OPEN|..j];
    var k := KludgedFrom(MARKERS, s, j + |DIV_CLOSE|, false);
    calc {
      KludgedFrom(MARKERS, s, i, inDiv);
      { UnfoldDivOpen(s, i, inDiv); }
      H3_OPEN + KludgedFrom(MARKERS, s, i + |DIV_OPEN|, true);
      { KludgePlainRun(MARKERS, s, i + |DIV_OPEN|, j, true); }
      H3_OPEN + (name + KludgedFrom(MARKERS, s, j, true));
      { UnfoldDivClose(s, j); }
      H3_OPEN + (name + (H3_CLOSE + k));
      H3_OPEN + name + H3_CLOSE + k;
    }
  }

  /** A `<span>name</span>` marker becomes, after the rewrite, h1 tags around the same name bytes. */
  lemma KludgeSpanAt(s: seq<byte>, i: nat, j: nat, inDiv: bool)
    requires HasAt(s, i, SPAN_OPEN) && i + |SPAN_OPEN| < j && HasAt(s, j, SPAN_CLOSE)
    requires s[i + |SPAN_OPEN|] == GT || IsSpace(s[i + |SPAN_OPEN|])
    requires forall k :: i + |SPAN_OPEN| <= k < j ==> s[k] != LT
    ensures WellFormed(MARKERS)
    ensures KludgedFrom(MARKERS, s, i, inDiv)
         == H1_OPEN + s[i + |SPAN_OPEN|..j] + H1_CLOSE + KludgedFrom(MARKERS, s, j + |SPAN_CLOSE|, inDiv)
  {
    MarkersWellFormed();
    var mid := s[i + |SPAN_OPEN|..j];
    var k := KludgedFrom(MARKERS, s, j + |SPAN_CLOSE|, inDiv);
    calc {
      KludgedFrom(MARKERS, s, i, inDiv);
      { UnfoldSpanOpen(s, i, inDiv); }
      H1_OPEN + KludgedFrom(MARKERS, s, i + |SPAN_OPEN|, inDiv);
      { KludgePlainRun(MARKERS, s, i + |SPAN_OPEN|, j, inDiv); }
      H1_OPEN + (mid + KludgedFrom(MARKERS, s, j, inDiv));
      { UnfoldSpanClose(s, j, inDiv); }
      H1_OPEN + (mid + (H1_CLOSE + k));
      H1_OPEN + mid + H1_CLOSE + k;
    }
  }

  // ---------------------------------------------------------------------
  // A `</div>` outside a div, and a second pass

  /** When no entry from `n` on applies at `i`, the byte there is copied. */
  lemma {:induction false} FirstMarkerNoneApplies(table: seq<Marker>, s: seq<byte>, i: nat, inDiv: bool, n: nat)
    requires n <= |table|
    requires forall q :: n <= q < |table| ==> !Applies(s, i, inDiv, table[q])
    ensures FirstMarker(table, s, i, inDiv, n) == Copy
    decreases |table| - n
  {
    if n < |table| {
      FirstMarkerNoneApplies(table, s, i, inDiv, n + 1);
    }
  }

  /** When the byte at `i` is copied, no entry from `n` on applies there. */
  lemma {:induction false} FirstMarkerCopy(table: seq<Marker>, s: seq<byte>, i: nat, inDiv: bool, n: nat)
    requires n <= |table| && FirstMarker(table, s, i, inDiv, n) == Copy
    ensures forall q :: n <= q < |table| ==> !Applies(s, i, inDiv, table[q])
    decreases |table| - n
  {
    if n < |table| {
      FirstMarkerCopy(table, s, i, inDiv, n + 1);
    }
  }

  /** A `</div>` met while no mach4 div is open is copied as it is, and the pass stays outside a div. */
  lemma PlainDivClose(s: seq<byte>, i: nat)
    requires HasAt(s, i, DIV_CLOSE)
    ensures WellFormed(MARKERS)
    ensures KludgedFrom(MARKERS, s, i, false) == DIV_CLOSE + KludgedFrom(MARKERS, s, i + |DIV_CLOSE|, false)
  {
    MarkersWellFormed();
    HasAtIff(s, i, DIV_CLOSE);
    NotBoth(s, i, DIV_CLOSE, DIV_OPEN, 1);
    NotBoth(s, i, DIV_CLOSE, SPAN_OPEN, 1);
    NotBoth(s, i, DIV_CLOSE, SPAN_CLOSE, 2);
    FirstMarkerNoneApplies(MARKERS, s, i, false, 0);
    UnfoldCopy(MARKERS, s, i, false);
    var e := i + |DIV_CLOSE|;
    KludgePlainRun(MARKERS, s, i + 1, e, false);
    assert s[i..e] == DIV_CLOSE;
    assert s[i..e] == [s[i]] + s[i + 1..e];
    ConsAssoc(s[i], s[i + 1..e], KludgedFrom(MARKERS, s, e, false), s[i..e]);
  }

  /** `p` is a tag: `<` is its first byte and no other. */
  predicate LtFirstOnly(p: seq<byte>)
  {
    |p| > 0 && p[0] == LT && forall k :: 0 < k < |p| ==> p[k] != LT
  }

  /**
   * A table whose output the pass leaves alone: markers and replacements
   * hold `<` only as their first byte, and no marker matches the start of
   * any replacement.
   */
  ghost predicate Clean(table: seq<Marker>)
  {
    WellFormed(table) && TagsAreTags(table) && ReplsAreTags(table) && ReplsUnmatched(table)
  }

  /** Every marker of the table holds `<` only as its first byte. */
  predicate TagsAreTags(table: seq<Marker>)
  {
    forall n :: 0 <= n < |table| ==> LtFirstOnly(table[n].tag)
  }

  /** Every replacement of the table holds `<` only as its first byte. */
  predicate ReplsAreTags(table: seq<Marker>)
  {
    forall n :: 0 <= n < |table| ==> LtFirstOnly(table[n].repl)
  }

  /** No marker of the table matches the start of any replacement. */
  ghost predicate ReplsUnmatched(table: seq<Marker>)
  {
    forall n, m :: 0 <= n < |table| && 0 <= m < |table| ==> Differ(table[m].tag, table[n].repl)
  }

  lemma TagsLtFirstOnly()
    ensures LtFirstOnly(DIV_OPEN) && LtFirstOnly(H3_OPEN) && LtFirstOnly(DIV_CLOSE) && LtFirstOnly(H3_CLOSE)
    ensures LtFirstOnly(SPAN_OPEN) && LtFirstOnly(H1_OPEN) && LtFirstOnly(SPAN_CLOSE) && LtFirstOnly(H1_CLOSE)
  {
  }

  lemma MarkersClean()
    ensures Clean(MARKERS)
  {
    MarkersWellFormed();
    MarkersAreTags();
    MarkersUnmatched();
  }

  lemma MarkersAreTags()
    ensures TagsAreTags(MARKERS) && ReplsAreTags(MARKERS)
  {
    TagsLtFirstOnly();
    assert MARKERS[0].tag == DIV_OPEN && MARKERS[0].repl == H3_OPEN;
    assert MARKERS[1].tag == DIV_CLOSE && MARKERS[1].repl == H3_CLOSE;
    assert MARKERS[2].tag == SPAN_OPEN && MARKERS[2].repl == H1_OPEN;
    assert MARKERS[3].tag == SPAN_CLOSE && MARKERS[3].repl == H1_CLOSE;
  }

  lemma MarkersUnmatched()
    ensures ReplsUnmatched(MARKERS)
  {
    forall n, m | 0 <= n < |MARKERS| && 0 <= m < |MARKERS|
      ensures Differ(MARKERS[m].tag, MARKERS[n].repl)
    {
      var tag, repl := MARKERS[m].tag, MARKERS[n].repl;
      assert 2 < |tag| && 2 < |repl|;
      var k := if tag[1] != repl[1] then 1 else 2;
      assert tag[k] != repl[k];
    }
  }

  /** Where the pass rewrites, its output starts with `<`. */
  lemma RewriteStartsLt(table: seq<Marker>, s: seq<byte>, i: nat, inDiv: bool)
    requires WellFormed(table) && ReplsAreTags(table) && i < |s|
    ensures Choose(table, s, i, inDiv).Rewrite? ==> KludgedFrom(table, s, i, inDiv)[0] == LT
  {
    var c := Choose(table, s, i, inDiv);
    if c.Rewrite? {
      UnfoldRewrite(table, s, i, inDiv, c.n);
      assert LtFirstOnly(table[c.n].repl);
    }
  }

  /** A stretch at the start of the output with no `<` in it is the input's bytes. */
  lemma {:induction false} NoLtCopied(table: seq<Marker>, s: seq<byte>, i: nat, inDiv: bool, j: nat)
    requires WellFormed(table) && ReplsAreTags(table) && i + j <= |s|
    requires forall k :: 0 <= k < j ==> KludgedFrom(table, s, i, inDiv)[k] != LT
    ensures forall k :: 0 <= k < j ==> KludgedFrom(table, s, i, inDiv)[k] == s[i + k]
    decreases j
  {
    if j > 0 {
      var r := KludgedFrom(table, s, i, inDiv);
      RewriteStartsLt(table, s, i, inDiv);
      UnfoldCopy(table, s, i, inDiv);
      var r1 := KludgedFrom(table, s, i + 1, inDiv);
      assert forall k :: 0 <= k < j - 1 ==> r[k + 1] == r1[k];
      NoLtCopied(table, s, i + 1, inDiv, j - 1);
      forall k | 0 <= k < j ensures r[k] == s[i + k] {
        if k > 0 {
          assert r[k] == r1[k - 1];
        }
      }
    }
  }

  /** A marker the output shows at a byte the pass copied was in the input there already. */
  lemma OutputMarkerWasInput(table: seq<Marker>, s: seq<byte>, i: nat, inDiv: bool, m: nat)
    requires WellFormed(table) && TagsAreTags(table) && ReplsAreTags(table)
    requires i < |s| && Choose(table, s, i, inDiv) == Copy && m < |table|
    ensures Applies(KludgedFrom(table, s, i, inDiv), 0, false, table[m]) ==> Applies(s, i, inDiv, table[m])
  {
    var r := KludgedFrom(table, s, i, inDiv);
    var mk := table[m];
    if Applies(r, 0, false, mk) {
      var len := |mk.tag|;
      var j := if mk.wholeName then len + 1 else len;
      assert LtFirstOnly(mk.tag);
      HasAtIff(r, 0, mk.tag);
      UnfoldCopy(table, s, i, inDiv);
      var r1 := KludgedFrom(table, s, i + 1, inDiv);
      forall k | 0 <= k < j - 1 ensures r1[k] != LT {
        assert r[k + 1] == r1[k];
        if k + 1 < len {
          assert r[k + 1] == mk.tag[k + 1];
        } else {
          assert r[len] == GT || IsSpace(r[len]);
        }
      }
      NoLtCopied(table, s, i + 1, inDiv, j - 1);
      forall k | 0 <= k < j ensures r[k] == s[i + k] {
        if k > 0 {
          assert r[k] == r1[k - 1];
        }
      }
      HasAtIff(s, i, mk.tag);
    }
  }

  /** A second pass over the output of the pass copies every byte. */
  lemma {:induction false} KludgeClean(table: seq<Marker>, s: seq<byte>, i: nat, inDiv: bool)
    requires Clean(table) && i <= |s|
    ensures KludgedFrom(table, KludgedFrom(table, s, i, inDiv), 0, false) == KludgedFrom(table, s, i, inDiv)
    decreases |s| - i, 1
  {
    if i < |s| {
      match Choose(table, s, i, inDiv)
      case Copy => CleanAfterCopy(table, s, i, inDiv);
      case Rewrite(n) => CleanAfterRewrite(table, s, i, inDiv, n);
    }
  }

  /** KludgeClean at a byte the first pass copies. */
  lemma {:induction false} CleanAfterCopy(table: seq<Marker>, s: seq<byte>, i: nat, inDiv: bool)
    requires Clean(table) && i < |s| && Choose(table, s, i, inDiv) == Copy
    ensures KludgedFrom(table, KludgedFrom(table, s, i, inDiv), 0, false) == KludgedFrom(table, s, i, inDiv)
    decreases |s| - i, 0
  {
    var r := KludgedFrom(table, s, i, inDiv);
    var r1 := KludgedFrom(table, s, i + 1, inDiv);
    UnfoldCopy(table, s, i, inDiv);
    if s[i] == LT {
      FirstMarkerCopy(table, s, i, inDiv, 0);
      forall q | 0 <= q < |table| ensures !Applies(r, 0, false, table[q]) {
        OutputMarkerWasInput(table, s, i, inDiv, q);
      }
      FirstMarkerNoneApplies(table, r, 0, false, 0);
    }
    assert Choose(table, r, 0, false) == Copy;
    UnfoldCopy(table, r, 0, false);
    KludgeAgrees(table, r, r1, 1, 0, false);
    KludgeClean(table, s, i + 1, inDiv);
  }

  /** A replacement of a clean table goes through a second pass unchanged. */
  lemma KludgeOverRepl(table: seq<Marker>, x: seq<byte>, y: seq<byte>)
    requires WellFormed(table) && LtFirstOnly(x)
    requires forall q :: 0 <= q < |table| ==> Differ(table[q].tag, x)
    ensures KludgedFrom(table, x + y, 0, false) == x + KludgedFrom(table, y, 0, false)
  {
    var r := x + y;
    forall q | 0 <= q < |table| ensures !MarkerAt(r, 0, table[q]) {
      var k :| 0 <= k < |table[q].tag| && k < |x| && table[q].tag[k] != x[k];
      assert r[k] == x[k];
      HasAtIff(r, 0, table[q].tag);
    }
    FirstMarkerNone(table, r, 0, false, 0);
    UnfoldCopy(table, r, 0, false);
    KludgePlainRun(table, r, 1, |x|, false);
    KludgeAgrees(table, r, y, |x|, 0, false);
    assert r[1..|x|] == x[1..];
    assert x == [x[0]] + x[1..];
  }

  /** KludgeClean at a marker the first pass rewrites. */
  lemma {:induction false} CleanAfterRewrite(table: seq<Marker>, s: seq<byte>, i: nat, inDiv: bool, n: nat)
    requires Clean(table) && i < |s| && Choose(table, s, i, inDiv) == Rewrite(n)
    ensures KludgedFrom(table, KludgedFrom(table, s, i, inDiv), 0, false) == KludgedFrom(table, s, i, inDiv)
    decreases |s| - i, 0
  {
    UnfoldRewrite(table, s, i, inDiv, n);
    var mk := table[n];
    var d := After(mk, inDiv);
    var e := i + |mk.tag|;
    var r2 := KludgedFrom(table, s, e, d);
    assert KludgedFrom(table, s, i, inDiv) == mk.repl + r2;
    assert LtFirstOnly(mk.repl);
    KludgeOverRepl(table, mk.repl, r2);
    KludgeClean(table, s, e, d);
  }

  lemma DropPrefix(x: seq<byte>, y: seq<byte>, k: nat)
    requires |x| <= k <= |x| + |y|
    ensures (x + y)[k..] == y[k - |x|..]
  {
  }

  /** A marker with `<` only as its first byte that starts before a `<` ends at or before it. */
  lemma MarkerEndsBefore(tag: seq<byte>, s: seq<byte>, i: nat, p: nat)
    requires LtFirstOnly(tag) && HasAt(s, i, tag) && i < p < |s| && s[p] == LT
    ensures i + |tag| <= p
  {
    HasAtIff(s, i, tag);
    forall k | i < k < i + |tag| ensures s[k] != LT {
      assert s[k] == tag[k - i];
    }
  }

  /**
   * The pass lands on every `<`: no marker with `<` only first spans one, so
   * the output from a `<` on is the pass started there, in some div state
   * `d`.
   */
  lemma {:induction false} PassReaches(table: seq<Marker>, s: seq<byte>, i: nat, inDiv: bool, p: nat) returns (d: bool)
    requires WellFormed(table) && TagsAreTags(table) && i <= p < |s| && s[p] == LT
    ensures KludgedFrom(table, s, i, inDiv)[p - i..] == KludgedFrom(table, s, p, d)
    decreases p - i, 1
  {
    if i == p {
      d := inDiv;
    } else {
      var e, d1 := PassStep(table, s, i, inDiv, p);
      d := PassReaches(table, s, e, d1, p);
    }
  }

  /** One step of the pass from `i` towards the `<` at `p`: it does not jump over `p`. */
  lemma PassStep(table: seq<Marker>, s: seq<byte>, i: nat, inDiv: bool, p: nat) returns (e: nat, d: bool)
    requires WellFormed(table) && TagsAreTags(table) && i < p < |s| && s[p] == LT
    ensures i < e <= p
    ensures KludgedFrom(table, s, i, inDiv)[p - i..] == KludgedFrom(table, s, e, d)[p - e..]
  {
    var c := Choose(table, s, i, inDiv);
    if c.Copy? {
      e, d := PassStepCopy(table, s, i, inDiv, p);
    } else {
      e, d := PassStepRewrite(table, s, i, inDiv, p, c.n);
    }
  }

  /** PassStep at a byte the pass copies. */
  lemma PassStepCopy(table: seq<Marker>, s: seq<byte>, i: nat, inDiv: bool, p: nat) returns (e: nat, d: bool)
    requires WellFormed(table) && i < p < |s|
    requires Choose(table, s, i, inDiv) == Copy
    ensures i < e <= p
    ensures KludgedFrom(table, s, i, inDiv)[p - i..] == KludgedFrom(table, s, e, d)[p - e..]
  {
    UnfoldCopy(table, s, i, inDiv);
    e, d := i + 1, inDiv;
    DropPrefix([s[i]], KludgedFrom(table, s, e, d), p - i);
  }

  /** PassStep at a marker the pass rewrites. */
  lemma PassStepRewrite(table: seq<Marker>, s: seq<byte>, i: nat, inDiv: bool, p: nat, n: nat) returns (e: nat, d: bool)
    requires WellFormed(table) && TagsAreTags(table) && i < p < |s| && s[p] == LT
    requires Choose(table, s, i, inDiv) == Rewrite(n)
    ensures i < e <= p
    ensures KludgedFrom(table, s, i, inDiv)[p - i..] == KludgedFrom(table, s, e, d)[p - e..]
  {
    UnfoldRewrite(table, s, i, inDiv, n);
    var mk := table[n];
    assert LtFirstOnly(mk.tag);
    e, d := i + |mk.tag|, After(mk, inDiv);
    MarkerEndsBefore(mk.tag, s, i, p);
    DropPrefix(mk.repl, KludgedFrom(table, s, e, d), p - i);
  }

  /** The rewritten file from a `<` on is the pass started at that `<`, in some div state `d`. */
  lemma KludgeHTMLAt(s: seq<byte>, i: nat) returns (d: bool)
    requires i < |s| && s[i] == LT
    ensures WellFormed(MARKERS)
    ensures KludgeHTML(s)[i..] == KludgedFrom(MARKERS, s, i, d)
  {
    MarkersClean();
    d := PassReaches(MARKERS, s, 0, false, i);
  }

  /** The Tiger rewrite is idempotent: rewriting a rewritten file changes nothing. */
  lemma KludgeIdempotent(s: seq<byte>)
    ensures KludgeHTML(KludgeHTML(s)) == KludgeHTML(s)
  {
    MarkersClean();
    KludgeClean(MARKERS, s, 0, false);
  }

  /** Overwrites `a[at..at + |bytes|]` with `bytes`. */
  method Overwrite(a: array<byte>, at: nat, bytes: seq<byte>)
    requires at + |bytes| <= a.Length
    modifies a
    ensures a[..at] == old(a[..at])
    ensures a[at..at + |bytes|] == bytes
    ensures forall k :: at + |bytes| <= k < a.Length ==> a[k] == old(a[k])
  {
    for j := 0 to |bytes|
      invariant a[..at] == old(a[..at])
      invariant a[at..at + j] == bytes[..j]
      invariant forall k :: at + j <= k < a.Length ==> a[k] == old(a[k])
    {
      a[at + j] := bytes[j];
      assert a[at..at + j + 1] == a[at..at + j] + [bytes[j]];
      assert bytes[..j + 1] == bytes[..j] + [bytes[j]];
    }
  }

  /** `done + x` reaches `target` once `x` is split as `r + y`. */
  lemma AppendStep(done: seq<byte>, x: seq<byte>, r: seq<byte>, y: seq<byte>, target: seq<byte>)
    requires done + x == target && x == r + y
    ensures (done + r) + y == target
  {
  }

  /** After `bytes` is written at `at`, the prefix up to its end is the old prefix followed by `bytes`. */
  lemma OverwrittenPrefix(before: seq<byte>, after: seq<byte>, at: nat, bytes: seq<byte>)
    requires at + |bytes| <= |before| == |after|
    requires after[..at] == before[..at]
    requires after[at..at + |bytes|] == bytes
    ensures after[..at + |bytes|] == before[..at] + bytes
  {
    assert after[..at + |bytes|] == after[..at] + after[at..at + |bytes|];
  }

  /**
   * The state of the in-place pass at position `i` over the copy `cur` of
   * `src`: the bytes not yet visited are still the source's, and the bytes
   * already written followed by the rewrite of the rest give the whole rewrite.
   */
  predicate PassAt(table: seq<Marker>, src: seq<byte>, cur: seq<byte>, i: nat, inDiv: bool)
    requires WellFormed(table)
  {
    && |cur| == |src| && i <= |src|
    && (forall k :: i <= k < |cur| ==> cur[k] == src[k])
    && cur[..i] + KludgedFrom(table, src, i, inDiv) == KludgedFrom(table, src, 0, false)
  }

  lemma PassStart(table: seq<Marker>, src: seq<byte>)
    requires WellFormed(table)
    ensures PassAt(table, src, src, 0, false)
  {
  }

  lemma PassDone(table: seq<Marker>, src: seq<byte>, cur: seq<byte>, inDiv: bool)
    requires WellFormed(table) && PassAt(table, src, cur, |src|, inDiv)
    ensures cur == KludgedFrom(table, src, 0, false)
  {
    assert cur[..|src|] == cur;
  }

  /** A byte the pass copies leaves the state of the pass one position further on. */
  lemma AdvanceCopy(table: seq<Marker>, src: seq<byte>, cur: seq<byte>, i: nat, inDiv: bool)
    requires WellFormed(table) && PassAt(table, src, cur, i, inDiv) && i < |src|
    requires Choose(table, cur, i, inDiv) == Copy
    ensures PassAt(table, src, cur, i + 1, inDiv)
  {
    ChooseAgrees(table, cur, src, 0, i, inDiv);
    UnfoldCopy(table, src, i, inDiv);
    AppendStep(cur[..i], KludgedFrom(table, src, i, inDiv), [src[i]],
               KludgedFrom(table, src, i + 1, inDiv), KludgedFrom(table, src, 0, false));
    assert cur[..i + 1] == cur[..i] + [src[i]];
  }

  /** The marker the pass rewrites lies inside the data. */
  lemma RewriteFits(table: seq<Marker>, cur: seq<byte>, i: nat, inDiv: bool, n: nat)
    requires WellFormed(table) && i < |cur| && Choose(table, cur, i, inDiv) == Rewrite(n)
    ensures n < |table| && i + |table[n].repl| <= |cur|
    ensures |table[n].repl| == |table[n].tag|
  {
  }

  /** The state of the pass from its three parts, with the written prefix named `done`. */
  lemma PassAtIntro(table: seq<Marker>, src: seq<byte>, cur: seq<byte>, i: nat, inDiv: bool, done: seq<byte>)
    requires WellFormed(table) && |cur| == |src| && i <= |src|
    requires forall k :: i <= k < |cur| ==> cur[k] == src[k]
    requires cur[..i] == done
    requires done + KludgedFrom(table, src, i, inDiv) == KludgedFrom(table, src, 0, false)
    ensures PassAt(table, src, cur, i, inDiv)
  {
  }

  /** What the pass still has to produce once it has written the replacement of the marker it found. */
  lemma RewriteTail(table: seq<Marker>, src: seq<byte>, cur: seq<byte>, i: nat, inDiv: bool, n: nat)
    requires WellFormed(table) && PassAt(table, src, cur, i, inDiv) && i < |src|
    requires Choose(table, cur, i, inDiv) == Rewrite(n)
    ensures n < |table| && i + |table[n].tag| <= |src|
    ensures (cur[..i] + table[n].repl) + KludgedFrom(table, src, i + |table[n].tag|, After(table[n], inDiv))
         == KludgedFrom(table, src, 0, false)
  {
    ChooseAgrees(table, cur, src, 0, i, inDiv);
    UnfoldRewrite(table, src, i, inDiv, n);
    AppendStep(cur[..i], KludgedFrom(table, src, i, inDiv), table[n].repl,
               KludgedFrom(table, src, i + |table[n].tag|, After(table[n], inDiv)), KludgedFrom(table, src, 0, false));
  }

  /** Overwriting the marker the pass found moves the state of the pass past that marker. */
  lemma AdvanceRewrite(table: seq<Marker>, src: seq<byte>, cur: seq<byte>, next: seq<byte>, i: nat, inDiv: bool, n: nat)
    requires WellFormed(table) && PassAt(table, src, cur, i, inDiv) && i < |src|
    requires Choose(table, cur, i, inDiv) == Rewrite(n)
    requires n < |table| && i + |table[n].repl| <= |cur| == |next|
    requires next[..i] == cur[..i]
    requires next[i..i + |table[n].repl|] == table[n].repl
    requires forall k :: i + |table[n].repl| <= k < |next| ==> next[k] == cur[k]
    ensures PassAt(table, src, next, i + |table[n].tag|, After(table[n], inDiv))
  {
    RewriteTail(table, src, cur, i, inDiv, n);
    OverwrittenPrefix(cur, next, i, table[n].repl);
    assert |table[n].repl| == |table[n].tag|;
    PassAtIntro(table, src, next, i + |table[n].tag|, After(table[n], inDiv), cur[..i] + table[n].repl);
  }

  /** One rewriting step of the pass: overwrites the marker entry `n` found at `i`. */
  method RewriteMarker(table: seq<Marker>, ghost src: seq<byte>, data: array<byte>, i: nat, inDiv: bool, n: nat)
    requires WellFormed(table) && PassAt(table, src, data[..], i, inDiv) && i < data.Length
    requires Choose(table, data[..], i, inDiv) == Rewrite(n)
    modifies data
    ensures n < |table| && i + |table[n].tag| <= data.Length
    ensures data[..] == old(data[..i]) + table[n].repl + old(data[i + |table[n].tag|..])
    ensures PassAt(table, src, data[..], i + |table[n].tag|, After(table[n], inDiv))
  {
    RewriteFits(table, data[..], i, inDiv, n);
    ghost var before := data[..];
    Overwrite(data, i, table[n].repl);
    AdvanceRewrite(table, src, before, data[..], i, inDiv, n);
    assert data[..] == data[..i] + data[i..i + |table[n].repl|] + data[i + |table[n].repl|..];
  }

  /**
   * The in-place pass: at each position the first entry of `table` found
   * there (if any) is overwritten by its replacement and the pass moves past
   * it; any other byte is left as it is.
   */
  method RewriteInPlace(table: seq<Marker>, data: array<byte>)
    requires WellFormed(table)
    modifies data
    ensures data[..] == KludgedFrom(table, old(data[..]), 0, false)
  {
    ghost var src := data[..];
    var i := 0;
    var inDiv := false;
    PassStart(table, src);
    while i < data.Length
      invariant PassAt(table, src, data[..], i, inDiv)
      decreases data.Length - i
    {
      var c := Choose(table, data[..], i, inDiv);
      match c
      case Copy =>
        AdvanceCopy(table, src, data[..], i, inDiv);
        i := i + 1;
      case Rewrite(n) =>
        RewriteMarker(table, src, data, i, inDiv, n);
        i := i + |table[n].tag|;
        inDiv := After(table[n], inDiv);
    }
    PassDone(table, src, data[..], inDiv);
  }

  /** +kludgeHTMLForTiger: copies the source data and runs the pass over the copy with the Tiger markers. */
  method KludgeHTMLForTiger(sourceData: seq<byte>) returns (data: array<byte>)
    ensures fresh(data)
    ensures data[..] == KludgeHTML(sourceData)
  {
    MarkersWellFormed();
    data := new byte[|sourceData|](k requires 0 <= k < |sourceData| => sourceData[k]);
    assert data[..] == sourceData;
    RewriteInPlace(MARKERS, data);
  }
}
