/**
 * The file-section hierarchy the doc parser builds while it reads headings.
 *
 * Sections live in an arena (`secs`, in document order); the stack of open
 * sections (`_sectionStack`) and every parent/child link are indices into it.
 * Depth 0 is the root section (an `<h1>`), depth 1 a major section (`<h2>`),
 * depth 2 a minor section (`<h3>`).
 *
 * A section runs from the offset of its own heading to the offset of the
 * first later section that is at its depth or shallower, or to the end of
 * the data. A heading the tree does not accept (see Accepts) opens no
 * section and so ends none. While no such section has been opened the
 * section is open and on the stack; its `end` is not yet meaningful.
 */
module Sections {
  import opened Bytes

  const ROOT: nat := 0
  const MAJOR: nat := 1
  const MINOR: nat := 2

  /** One AKFileSection: the raw heading text, its byte range, its depth and its links. */
  datatype Section = Section(name: seq<byte>, start: nat, end: nat, depth: nat, parent: nat, children: seq<nat>)

  /** A heading the scanner found: raw name bytes, offset of its `<`, and depth (h1 -> 0, h2 -> 1, h3 -> 2). */
  datatype Heading = Heading(name: seq<byte>, start: nat, depth: nat)

  /** The section arena and the stack of open sections, bottom (root) first. */
  datatype Outline = Outline(secs: seq<Section>, stack: seq<nat>)

  const Empty: Outline := Outline([], [])

  ghost predicate StackInRange(o: Outline)
  {
    forall k :: 0 <= k < |o.stack| ==> o.stack[k] < |o.secs|
  }

  /** Section `i` sits on the stack at position `d` or higher. */
  ghost predicate Above(stack: seq<nat>, d: nat, i: nat)
  {
    exists k :: d <= k < |stack| && stack[k] == i
  }

  /** Pops the stack down to its first `d` entries, ending every popped section at offset `p`. */
  function CloseFrom(secs: seq<Section>, stack: seq<nat>, d: nat, p: nat): (r: seq<Section>)
    requires forall k :: 0 <= k < |stack| ==> stack[k] < |secs|
    ensures |r| == |secs|
    ensures forall i :: 0 <= i < |secs| ==>
              r[i] == if Above(stack, d, i) then secs[i].(end := p) else secs[i]
    decreases |stack|
  {
    if |stack| <= d then secs
    else
      var top := stack[|stack| - 1];
      var rest := stack[..|stack| - 1];
      var r := CloseFrom(secs[top := secs[top].(end := p)], rest, d, p);
      assert forall i :: 0 <= i < |secs| && i != top ==> (Above(rest, d, i) <==> Above(stack, d, i)) by {
        forall i | 0 <= i < |secs| && i != top && Above(stack, d, i) ensures Above(rest, d, i) {
          var k :| d <= k < |stack| && stack[k] == i;
          assert rest[k] == i;
        }
      }
      assert Above(stack, d, top) by { assert stack[|stack| - 1] == top; }
      r
  }

  /**
   * A heading at depth `d` opens a section when it is the file's first h1,
   * or when a section at depth d - 1 is open; any other heading is ignored.
   */
  predicate Accepts(o: Outline, h: Heading)
  {
    h.depth <= MINOR && (if h.depth == ROOT then |o.secs| == 0 else h.depth <= |o.stack|)
  }

  /**
   * The parser's reaction to one heading: close every open section at the
   * heading's depth or deeper at the heading's offset, then push a new
   * section under the section left on top of the stack.
   */
  function Open(o: Outline, h: Heading): (r: Outline)
    requires StackInRange(o)
    ensures StackInRange(r)
  {
    if !Accepts(o, h) then o
    else if h.depth == ROOT then Outline([Section(h.name, h.start, h.start, ROOT, 0, [])], [0])
    else
      var n := |o.secs|;
      var parent := o.stack[h.depth - 1];
      var closed := CloseFrom(o.secs, o.stack, h.depth, h.start);
      var adopted := closed[parent := closed[parent].(children := closed[parent].children + [n])];
      Outline(adopted + [Section(h.name, h.start, h.start, h.depth, parent, [])], o.stack[..h.depth] + [n])
  }

  /** At the end of the data every section still open ends there and the stack is emptied. */
  function Finish(o: Outline, eof: nat): (r: Outline)
    requires StackInRange(o)
    ensures r.stack == [] && |r.secs| == |o.secs|
    ensures forall i :: 0 <= i < |o.secs| ==> r.secs[i] == if i in o.stack then o.secs[i].(end := eof) else o.secs[i]
  {
    Outline(CloseFrom(o.secs, o.stack, 0, eof), [])
  }

  /** The outline after reading the headings `hs` in order. */
  function FoldHeadings(o: Outline, hs: seq<Heading>): (r: Outline)
    requires StackInRange(o)
    ensures StackInRange(r)
    decreases |hs|
  {
    if hs == [] then o else FoldHeadings(Open(o, hs[0]), hs[1..])
  }

  lemma FoldCons(o: Outline, h: Heading, hs: seq<Heading>)
    requires StackInRange(o)
    ensures FoldHeadings(o, [h] + hs) == FoldHeadings(Open(o, h), hs)
  {
    assert ([h] + hs)[1..] == hs;
  }

  // ---------------------------------------------------------------------
  // The invariant of the arena and the stack

  /** No later section is at the depth of section `i` or shallower: `i` is still open. */
  ghost predicate IsOpen(secs: seq<Section>, i: nat)
    requires i < |secs|
  {
    forall j :: i < j < |secs| ==> secs[j].depth > secs[i].depth
  }

  /** Section `j` is the heading that closes section `i`: the first later one at its depth or shallower. */
  ghost predicate Closes(secs: seq<Section>, i: nat, j: nat)
  {
    i < j < |secs| && secs[j].depth <= secs[i].depth
    && forall m :: i < m < j ==> secs[m].depth > secs[i].depth
  }

  /** Section `i` (not the root) is one level below its parent, and nothing between them is shallower than `i`. */
  ghost predicate ParentOk(secs: seq<Section>, i: nat)
    requires 0 < i < |secs|
  {
    var p := secs[i].parent;
    ROOT < secs[i].depth <= MINOR && p < i && secs[p].depth + 1 == secs[i].depth
    && (forall m :: p < m < i ==> secs[m].depth >= secs[i].depth)
    && i in secs[p].children
  }

  /** The children of `q` are sections whose parent is `q`, in document order. */
  ghost predicate ChildrenOk(secs: seq<Section>, q: nat)
    requires q < |secs|
  {
    var cs := secs[q].children;
    (forall t :: 0 <= t < |cs| ==> 0 < cs[t] < |secs| && secs[cs[t]].parent == q)
    && (forall t, u :: 0 <= t < u < |cs| ==> cs[t] < cs[u])
  }

  /** Tree shape: one root first, depth at most three levels, complete ordered child lists, increasing starts. */
  ghost predicate Shape(secs: seq<Section>)
  {
    (|secs| > 0 ==> secs[0].depth == ROOT) && Parents(secs) && ChildLists(secs) && StartsIncreasing(secs)
  }

  ghost predicate Parents(secs: seq<Section>)
  {
    forall i :: 0 < i < |secs| ==> ParentOk(secs, i)
  }

  ghost predicate ChildLists(secs: seq<Section>)
  {
    forall q :: 0 <= q < |secs| ==> ChildrenOk(secs, q)
  }

  ghost predicate StartsIncreasing(secs: seq<Section>)
  {
    forall i, j :: 0 <= i < j < |secs| ==> secs[i].start < secs[j].start
  }

  /** The stack holds, for each depth up to that of the newest section, the open section at that depth. */
  ghost predicate StackOk(o: Outline)
  {
    (|o.stack| == 0 <==> |o.secs| == 0)
    && (|o.secs| > 0 ==> |o.stack| == o.secs[|o.secs| - 1].depth + 1 && o.stack[|o.stack| - 1] == |o.secs| - 1)
    && (forall k :: 0 <= k < |o.stack| ==> o.stack[k] < |o.secs| && o.secs[o.stack[k]].depth == k)
    && (forall k, j :: 0 <= k < |o.stack| && o.stack[k] < j < |o.secs| ==> o.secs[j].depth > k)
  }

  /** A closed section ends where the heading that closes it starts. */
  ghost predicate EndsOk(secs: seq<Section>)
  {
    forall i: nat, j: nat :: Closes(secs, i, j) ==> secs[i].end == secs[j].start
  }

  ghost predicate Inv(o: Outline)
  {
    Shape(o.secs) && StackOk(o) && EndsOk(o.secs)
  }

  ghost predicate StartsBelow(secs: seq<Section>, x: nat)
  {
    forall i :: 0 <= i < |secs| ==> secs[i].start < x
  }

  ghost predicate Increasing(hs: seq<Heading>)
  {
    forall a, b :: 0 <= a < b < |hs| ==> hs[a].start < hs[b].start
  }

  /** The finished tree: every open section ends at `eof`, and every section starts before it. */
  ghost predicate Finished(secs: seq<Section>, eof: nat)
  {
    Shape(secs) && EndsOk(secs) && StartsBelow(secs, eof) && OpenEndAt(secs, eof)
  }

  ghost predicate OpenEndAt(secs: seq<Section>, eof: nat)
  {
    forall i :: 0 <= i < |secs| && IsOpen(secs, i) ==> secs[i].end == eof
  }

  // ---------------------------------------------------------------------
  // The stack is the path from the root to the newest section

  /** An open section is on the stack, at the position of its depth. */
  lemma OpenIsOnStack(o: Outline, i: nat)
    requires StackOk(o) && Shape(o.secs)
    requires i < |o.secs| && IsOpen(o.secs, i)
    ensures o.secs[i].depth < |o.stack| && o.stack[o.secs[i].depth] == i
  {
    var last := |o.secs| - 1;
    assert o.secs[last].depth >= o.secs[i].depth;
  }

  /**
   * `_sectionStack` is the path down the hierarchy: it starts at the root,
   * each entry is the parent of the next, the newest section is on top, and
   * a section is on it exactly when it is still open.
   */
  lemma StackIsPath(o: Outline)
    requires Inv(o)
    ensures |o.stack| > 0 ==> o.stack[0] == 0 && o.stack[|o.stack| - 1] == |o.secs| - 1
    ensures forall k :: 0 < k < |o.stack| ==> o.secs[o.stack[k]].parent == o.stack[k - 1]
    ensures forall i :: 0 <= i < |o.secs| ==> (IsOpen(o.secs, i) <==> i in o.stack)
  {
    var secs, stack := o.secs, o.stack;
    assert |stack| > 0 && stack[0] != 0 ==> ParentOk(secs, stack[0]);
    forall k | 0 < k < |stack| ensures secs[stack[k]].parent == stack[k - 1] {
      StackParent(o, k);
    }
    forall i | 0 <= i < |secs| ensures IsOpen(secs, i) <==> i in stack {
      if IsOpen(secs, i) {
        OpenIsOnStack(o, i);
      }
      if i in stack {
        var k :| 0 <= k < |stack| && stack[k] == i;
        assert forall j :: i < j < |secs| ==> secs[j].depth > secs[i].depth;
      }
    }
  }

  lemma StackParent(o: Outline, k: nat)
    requires StackOk(o) && Shape(o.secs) && 0 < k < |o.stack|
    ensures o.secs[o.stack[k]].parent == o.stack[k - 1]
  {
    var secs := o.secs;
    var c := o.stack[k];
    var p := secs[c].parent;
    var x := o.stack[k - 1];
    assert ParentOk(secs, c);
    assert secs[p].depth == k - 1 && secs[x].depth == k - 1;
  }

  // ---------------------------------------------------------------------
  // Opening a section keeps the invariant

  lemma OpenRootInv(h: Heading)
    ensures Inv(Outline([Section(h.name, h.start, h.start, ROOT, 0, [])], [0]))
  {
  }

  /** The sections popped when a heading at depth `d` arrives are exactly the open ones at depth `d` or deeper. */
  lemma PoppedAreOpen(o: Outline, d: nat, i: nat)
    requires StackOk(o) && Shape(o.secs) && i < |o.secs|
    ensures Above(o.stack, d, i) <==> IsOpen(o.secs, i) && o.secs[i].depth >= d
  {
    if Above(o.stack, d, i) {
      var k :| d <= k < |o.stack| && o.stack[k] == i;
      assert forall j :: i < j < |o.secs| ==> o.secs[j].depth > k;
    }
    if IsOpen(o.secs, i) && o.secs[i].depth >= d {
      OpenIsOnStack(o, i);
    }
  }

  /** Same heading, range start, depth and parent. */
  ghost predicate Kept(a: Section, b: Section)
  {
    a.name == b.name && a.start == b.start && a.depth == b.depth && a.parent == b.parent
  }

  /** What opening a section below the root does to the arena and the stack. */
  lemma OpenFacts(o: Outline, h: Heading)
    requires StackInRange(o) && Accepts(o, h) && h.depth != ROOT
    ensures var r := Open(o, h);
            var n := |o.secs|;
            var p := o.stack[h.depth - 1];
            && |r.secs| == n + 1 && r.stack == o.stack[..h.depth] + [n]
            && r.secs[n] == Section(h.name, h.start, h.start, h.depth, p, [])
            && (forall i :: 0 <= i < n ==> Kept(o.secs[i], r.secs[i]))
            && (forall i :: 0 <= i < n ==>
                  r.secs[i].children == if i == p then o.secs[i].children + [n] else o.secs[i].children)
            && (forall i :: 0 <= i < n ==>
                  r.secs[i].end == if Above(o.stack, h.depth, i) then h.start else o.secs[i].end)
  {
  }

  /** Appending section `n` under `p` keeps the tree shape. */
  lemma PushShape(a: seq<Section>, b: seq<Section>, p: nat)
    requires Shape(a)
    requires |b| == |a| + 1 && p < |a|
    requires forall i :: 0 <= i < |a| ==> Kept(a[i], b[i])
    requires forall i :: 0 <= i < |a| ==>
               b[i].children == if i == p then a[i].children + [|a|] else a[i].children
    requires var c := b[|a|];
             && c.parent == p && c.children == [] && ROOT < c.depth <= MINOR && a[p].depth + 1 == c.depth
             && (forall m :: p < m < |a| ==> a[m].depth >= c.depth)
             && StartsBelow(a, c.start)
    ensures Shape(b)
  {
    PushParents(a, b, p);
    PushChildLists(a, b, p);
  }

  lemma PushParents(a: seq<Section>, b: seq<Section>, p: nat)
    requires Parents(a)
    requires |b| == |a| + 1 && p < |a|
    requires forall i :: 0 <= i < |a| ==> Kept(a[i], b[i])
    requires forall i :: 0 <= i < |a| ==> a[i].children <= b[i].children
    requires p < |a| && |a| in b[p].children
    requires var c := b[|a|];
             && c.parent == p && ROOT < c.depth <= MINOR && a[p].depth + 1 == c.depth
             && (forall m :: p < m < |a| ==> a[m].depth >= c.depth)
    ensures Parents(b)
  {
    forall i | 0 < i < |a| ensures ParentOk(b, i) {
      assert ParentOk(a, i);
      assert i in a[a[i].parent].children;
    }
  }

  lemma PushChildLists(a: seq<Section>, b: seq<Section>, p: nat)
    requires ChildLists(a)
    requires |b| == |a| + 1 && p < |a|
    requires forall i :: 0 <= i < |a| ==> b[i].parent == a[i].parent
    requires forall i :: 0 <= i < |a| ==>
               b[i].children == if i == p then a[i].children + [|a|] else a[i].children
    requires b[|a|].parent == p && b[|a|].children == []
    ensures ChildLists(b)
  {
    forall q | 0 <= q < |b| ensures ChildrenOk(b, q) {
      if q == p {
        AppendChild(a, b, p);
      } else if q < |a| {
        assert ChildrenOk(a, q);
      }
    }
  }

  lemma AppendChild(a: seq<Section>, b: seq<Section>, p: nat)
    requires |b| == |a| + 1 && p < |a| && ChildrenOk(a, p)
    requires forall i :: 0 <= i < |a| ==> b[i].parent == a[i].parent
    requires b[p].children == a[p].children + [|a|] && b[|a|].parent == p
    ensures ChildrenOk(b, p)
  {
    var cs := b[p].children;
    assert forall t :: 0 <= t < |cs| - 1 ==> cs[t] == a[p].children[t];
  }

  /** Popping to depth `d` and pushing the new section `n` at depth `d` keeps the stack invariant. */
  lemma PushStack(o: Outline, r: Outline, d: nat)
    requires StackOk(o) && 0 < d <= |o.stack|
    requires |r.secs| == |o.secs| + 1 && r.stack == o.stack[..d] + [|o.secs|]
    requires forall i :: 0 <= i < |o.secs| ==> r.secs[i].depth == o.secs[i].depth
    requires r.secs[|o.secs|].depth == d
    ensures StackOk(r)
  {
  }

  /** The new section closes exactly the sections that were popped; every other end is kept. */
  lemma PushEnds(o: Outline, b: seq<Section>, d: nat, p: nat)
    requires StackOk(o) && Shape(o.secs) && EndsOk(o.secs)
    requires |b| == |o.secs| + 1
    requires forall i :: 0 <= i < |o.secs| ==> Kept(o.secs[i], b[i])
    requires forall i :: 0 <= i < |o.secs| ==> b[i].end == if Above(o.stack, d, i) then p else o.secs[i].end
    requires b[|o.secs|].depth == d && b[|o.secs|].start == p
    ensures EndsOk(b)
  {
    var n := |o.secs|;
    forall i: nat, j: nat | Closes(b, i, j) ensures b[i].end == b[j].start {
      PoppedAreOpen(o, d, i);
      if j < n {
        assert Closes(o.secs, i, j);
        assert j > i && o.secs[j].depth <= o.secs[i].depth;
      } else {
        assert IsOpen(o.secs, i);
      }
    }
  }

  /** Opening a section for a heading that comes after every section so far keeps the invariant. */
  lemma OpenKeepsInv(o: Outline, h: Heading)
    requires Inv(o) && StartsBelow(o.secs, h.start)
    ensures Inv(Open(o, h)) && StartsBelow(Open(o, h).secs, h.start + 1)
  {
    if !Accepts(o, h) {
    } else if h.depth == ROOT {
      OpenRootInv(h);
    } else {
      OpenBelowRoot(o, h);
    }
  }

  lemma OpenBelowRoot(o: Outline, h: Heading)
    requires Inv(o) && StartsBelow(o.secs, h.start) && Accepts(o, h) && h.depth != ROOT
    ensures Inv(Open(o, h)) && StartsBelow(Open(o, h).secs, h.start + 1)
  {
    OpenFacts(o, h);
    var r := Open(o, h);
    PushShape(o.secs, r.secs, o.stack[h.depth - 1]);
    PushStack(o, r, h.depth);
    PushEnds(o, r.secs, h.depth, h.start);
    PushStartsBelow(o.secs, r.secs, h.start);
  }

  lemma PushStartsBelow(a: seq<Section>, b: seq<Section>, x: nat)
    requires StartsBelow(a, x) && |b| == |a| + 1 && b[|a|].start == x
    requires forall i :: 0 <= i < |a| ==> Kept(a[i], b[i])
    ensures StartsBelow(b, x + 1)
  {
  }

  /** Reading headings in increasing offset order keeps the invariant. */
  lemma {:induction false} FoldKeepsInv(o: Outline, hs: seq<Heading>, x: nat)
    requires Inv(o) && Increasing(hs)
    requires hs != [] ==> StartsBelow(o.secs, hs[0].start) && hs[|hs| - 1].start < x
    requires hs == [] ==> StartsBelow(o.secs, x)
    ensures Inv(FoldHeadings(o, hs)) && StartsBelow(FoldHeadings(o, hs).secs, x)
    decreases |hs|
  {
    if hs != [] {
      var o1 := Open(o, hs[0]);
      OpenKeepsInv(o, hs[0]);
      assert StartsBelow(o1.secs, x) by {
        assert hs[0].start <= hs[|hs| - 1].start;
      }
      assert |hs| > 1 ==> StartsBelow(o1.secs, hs[1].start);
      FoldKeepsInv(o1, hs[1..], x);
    }
  }

  /** Changing only the ends of sections keeps the tree shape. */
  lemma EndsOnlyShape(a: seq<Section>, b: seq<Section>)
    requires Shape(a) && |a| == |b|
    requires forall i :: 0 <= i < |a| ==> Kept(a[i], b[i]) && a[i].children == b[i].children
    ensures Shape(b)
  {
    forall i | 0 < i < |b| ensures ParentOk(b, i) {
      assert ParentOk(a, i);
    }
    forall q | 0 <= q < |b| ensures ChildrenOk(b, q) {
      assert ChildrenOk(a, q);
    }
  }

  /** Closing the sections left open at the end of the data gives a finished tree. */
  lemma FinishIsFinished(o: Outline, eof: nat)
    requires Inv(o) && StartsBelow(o.secs, eof)
    ensures Finished(Finish(o, eof).secs, eof)
  {
    var secs := Finish(o, eof).secs;
    assert forall i :: 0 <= i < |secs| ==>
      Kept(o.secs[i], secs[i]) && secs[i].children == o.secs[i].children
      && secs[i].end == if Above(o.stack, 0, i) then eof else o.secs[i].end;
    EndsOnlyShape(o.secs, secs);
    FinishEnds(o, secs, eof);
  }

  lemma FinishEnds(o: Outline, b: seq<Section>, eof: nat)
    requires StackOk(o) && Shape(o.secs) && EndsOk(o.secs) && |b| == |o.secs|
    requires forall i :: 0 <= i < |b| ==>
      Kept(o.secs[i], b[i]) && b[i].end == if Above(o.stack, 0, i) then eof else o.secs[i].end
    ensures EndsOk(b) && OpenEndAt(b, eof)
  {
    forall i: nat, j: nat | Closes(b, i, j) ensures b[i].end == b[j].start {
      assert Closes(o.secs, i, j);
      PoppedAreOpen(o, 0, i);
    }
    forall i | 0 <= i < |b| && IsOpen(b, i) ensures b[i].end == eof {
      assert IsOpen(o.secs, i);
      PoppedAreOpen(o, 0, i);
    }
  }

  /** Every section of the outline carries the name, offset and depth of a heading that satisfies `P`. */
  ghost predicate FromHeadings(secs: seq<Section>, P: Heading -> bool)
  {
    forall i :: 0 <= i < |secs| ==> P(Heading(secs[i].name, secs[i].start, secs[i].depth))
  }

  /** Sections are made only from the headings read: the name is the heading's own text, unchanged. */
  lemma {:induction false} FoldFromHeadings(o: Outline, hs: seq<Heading>, P: Heading -> bool)
    requires StackInRange(o) && FromHeadings(o.secs, P)
    requires forall t :: 0 <= t < |hs| ==> P(hs[t])
    ensures FromHeadings(FoldHeadings(o, hs).secs, P)
    decreases |hs|
  {
    if hs != [] {
      var r := Open(o, hs[0]);
      assert FromHeadings(r.secs, P) by {
        if Accepts(o, hs[0]) && hs[0].depth != ROOT {
          var closed := CloseFrom(o.secs, o.stack, hs[0].depth, hs[0].start);
          assert forall i :: 0 <= i < |o.secs| ==>
            r.secs[i].name == o.secs[i].name && r.secs[i].start == o.secs[i].start && r.secs[i].depth == o.secs[i].depth;
          assert r.secs[|o.secs|].name == hs[0].name;
        }
      }
      FoldFromHeadings(r, hs[1..], P);
    }
  }

  /** Some section at depth `d` is still open. */
  ghost predicate OpenAtDepth(secs: seq<Section>, d: nat)
  {
    exists i :: 0 <= i < |secs| && IsOpen(secs, i) && secs[i].depth == d
  }

  /**
   * The rule for which headings open a section: an h1 only while the tree is
   * still empty, an h2 or h3 only while a section one level up is open. Any
   * other heading (a second h1, an h2 before the first h1, an h3 with no h2
   * open) is ignored and closes nothing.
   */
  lemma AcceptsIff(o: Outline, h: Heading)
    requires Inv(o)
    ensures Accepts(o, h) <==> h.depth <= MINOR && if h.depth == ROOT then o.secs == [] else OpenAtDepth(o.secs, h.depth - 1)
  {
    if ROOT < h.depth <= MINOR {
      if h.depth <= |o.stack| {
        var i := o.stack[h.depth - 1];
        assert IsOpen(o.secs, i) && o.secs[i].depth == h.depth - 1;
      }
      if OpenAtDepth(o.secs, h.depth - 1) {
        var i :| 0 <= i < |o.secs| && IsOpen(o.secs, i) && o.secs[i].depth == h.depth - 1;
        OpenIsOnStack(o, i);
      }
    }
  }

  /** Some heading of `hs` is an h1. */
  ghost predicate HasRootHeading(hs: seq<Heading>)
  {
    exists t :: 0 <= t < |hs| && hs[t].depth == ROOT
  }

  /** The tree gets a root exactly when an h1 is read while it is still empty; once it has one it keeps it. */
  lemma {:induction false} FoldRootIff(o: Outline, hs: seq<Heading>)
    requires StackInRange(o) && (o.secs == [] ==> o.stack == [])
    ensures FoldHeadings(o, hs).secs != [] <==> o.secs != [] || HasRootHeading(hs)
    decreases |hs|
  {
    if hs != [] {
      var o1 := Open(o, hs[0]);
      assert o1.secs != [] <==> o.secs != [] || hs[0].depth == ROOT;
      FoldRootIff(o1, hs[1..]);
      assert HasRootHeading(hs) <==> hs[0].depth == ROOT || HasRootHeading(hs[1..]) by {
        if HasRootHeading(hs[1..]) {
          var t :| 0 <= t < |hs[1..]| && hs[1..][t].depth == ROOT;
          assert hs[t + 1].depth == ROOT;
        }
        if HasRootHeading(hs) && hs[0].depth != ROOT {
          var t :| 0 <= t < |hs| && hs[t].depth == ROOT;
          assert hs[1..][t - 1].depth == ROOT;
        }
      }
    }
  }

  // ---------------------------------------------------------------------
  // Properties of the finished tree

  /** The first section after `i` that is at its depth or shallower, no later than `j`. */
  lemma {:induction false} FindCloser(secs: seq<Section>, i: nat, from: nat, j: nat) returns (k: nat)
    requires i < from <= j < |secs| && secs[j].depth <= secs[i].depth
    requires forall m :: i < m < from ==> secs[m].depth > secs[i].depth
    ensures Closes(secs, i, k) && k <= j
    decreases j - from
  {
    if secs[from].depth <= secs[i].depth {
      k := from;
    } else {
      k := FindCloser(secs, i, from + 1, j);
    }
  }

  /** A section ends no later than the start of any later heading at its depth or shallower. */
  lemma EndsBeforeNotDeeper(secs: seq<Section>, i: nat, j: nat)
    requires EndsOk(secs) && StartsIncreasing(secs)
    requires i < j < |secs| && secs[j].depth <= secs[i].depth
    ensures secs[i].end <= secs[j].start
  {
    var k := FindCloser(secs, i, i + 1, j);
  }

  /** Every section's range is non-empty and inside the data. */
  lemma RangeInData(secs: seq<Section>, eof: nat, i: nat)
    requires EndsOk(secs) && StartsIncreasing(secs) && StartsBelow(secs, eof) && OpenEndAt(secs, eof)
    requires i < |secs|
    ensures secs[i].start < secs[i].end <= eof
  {
    if !IsOpen(secs, i) {
      var j :| i < j < |secs| && secs[j].depth <= secs[i].depth;
      var k := FindCloser(secs, i, i + 1, j);
    }
  }

  /** A child's range lies strictly inside, and starts after, its parent's. */
  lemma ChildInsideParent(secs: seq<Section>, eof: nat, c: nat)
    requires Parents(secs) && EndsOk(secs) && StartsIncreasing(secs) && StartsBelow(secs, eof) && OpenEndAt(secs, eof)
    requires 0 < c < |secs|
    ensures secs[c].parent < c
    ensures secs[secs[c].parent].start < secs[c].start && secs[c].end <= secs[secs[c].parent].end
  {
    var q := secs[c].parent;
    assert ParentOk(secs, c);
    RangeInData(secs, eof, c);
    if !IsOpen(secs, q) {
      var j :| q < j < |secs| && secs[j].depth <= secs[q].depth;
      var k := FindCloser(secs, q, q + 1, j);
      CloserAfterChild(secs, c, k);
      EndsBeforeNotDeeper(secs, c, k);
    }
  }

  /** The heading that closes a parent comes after each of its children. */
  lemma CloserAfterChild(secs: seq<Section>, c: nat, k: nat)
    requires 0 < c < |secs| && ParentOk(secs, c) && Closes(secs, secs[c].parent, k)
    ensures c < k && secs[k].depth <= secs[c].depth
  {
    assert secs[k].depth < secs[c].depth;
  }

  /** Siblings follow each other without overlapping. */
  lemma SiblingsDisjoint(secs: seq<Section>, a: nat, b: nat)
    requires Parents(secs) && EndsOk(secs) && StartsIncreasing(secs)
    requires 0 < a < b < |secs| && secs[a].parent == secs[b].parent
    ensures secs[a].end <= secs[b].start
  {
    assert ParentOk(secs, a) && ParentOk(secs, b);
    EndsBeforeNotDeeper(secs, a, b);
  }

  /** Exactly one root, at index 0; every other section is a major or minor section. */
  lemma OneRoot(secs: seq<Section>)
    requires Shape(secs)
    ensures forall i :: 0 <= i < |secs| ==> (secs[i].depth == ROOT <==> i == 0) && secs[i].depth <= MINOR
  {
    forall i | 0 < i < |secs| ensures ROOT < secs[i].depth <= MINOR {
      assert ParentOk(secs, i);
    }
  }
}
