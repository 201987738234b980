/** The dancing-links solver state and its four link primitives.

    The five link vectors live in arrays; `Valid` ties their contents to the
    static arena `L` and to the two ghost stacks `covered` (items removed from the
    header ring) and `hidden` (nodes removed from their column rings).  `Settled`
    adds that `hidden` is exactly what covering the items of `covered` in order
    removes, which is what makes `uncover` undo `cover`. */
module Dlx {
  import opened Layouts
  import opened Render
  import opened History
  import opened Problems
  import opened Search
  import opened Building

  /** x[0 .. l) holds the element nodes xs, and every entry of x is a node of L. */
  ghost predicate Stack(L: Layout, x: seq<int>, l: int, xs: seq<int>) {
    && |x| == L.n && 0 <= l <= |x| && |xs| == l
    && (forall k :: 0 <= k < |x| ==> 0 <= x[k] < |L.top|)
    && (forall k :: 0 <= k < l ==> x[k] == xs[k])
  }

  /** Pushing the entry at level l onto the stack. */
  lemma StackPush(L: Layout, x: seq<int>, l: int, xs: seq<int>)
    requires Stack(L, x, l, xs) && l < |x|
    ensures Stack(L, x, l + 1, xs + [x[l]])
  {
  }

  /** Retreating from level l: the entry at level l is replaced, the stack below
      it is kept. */
  lemma StackRetreat(L: Layout, x: seq<int>, l: int, xs: seq<int>, t: int)
    requires 0 <= l && Stack(L, x, l + 1, xs) && 0 <= t < |L.top|
    ensures Stack(L, x[l := t], l, xs[..l]) && l < |x|
  {
  }

  /** How far a walk round p's option that moves right from p, wrapping from the
      option's end to its start, still has to go at cursor q before it is back
      at p (the walks of `hide(p)` and of the commit loop of `solve`). */
  ghost function StepsRight(L: Layout, p: int, q: int): int
    requires Sized(L) && IsElement(L, p)
  {
    if q > p then OptEnd(L, p) - q + (p - OptStart(L, p)) + 1 else p - q
  }

  /** The same for a walk that moves left from p, wrapping from the option's
      start to its end (the walks of `unhide(p)` and of the uncommit loop). */
  ghost function StepsLeft(L: Layout, p: int, q: int): int
    requires Sized(L) && IsElement(L, p)
  {
    if q < p then q - OptStart(L, p) + OptEnd(L, p) - p + 1 else q - p
  }

  class Solver {
    const ec: ExactCover
    ghost const L: Layout
    const toplen: array<int>
    const llink: array<int>
    const rlink: array<int>
    const ulink: array<int>
    const dlink: array<int>
    ghost var covered: seq<int>
    ghost var hidden: seq<int>

    ghost predicate Valid()
      reads this, toplen, llink, rlink, ulink, dlink
    {
      && InRange(L) && Framed(L)
      && toplen.Length == |L.top| && ulink.Length == |L.top| && dlink.Length == |L.top|
      && llink.Length == L.n + 1 && rlink.Length == L.n + 1
      && toplen != ulink && toplen != dlink && ulink != dlink && llink != rlink
      && Headers(L, covered)
      && toplen[..] == LenSeq(L, hidden)
      && ulink[..] == UpSeq(L, hidden)
      && dlink[..] == DownSeq(L, hidden)
      && llink[..] == LSeq(L, covered)
      && rlink[..] == RSeq(L, covered)
    }

    /** The solver was built from the instance `ec`: its arena is ec's layout. */
    ghost predicate Built() {
      WellFormed(ec) && L == Arena(ec)
    }

    ghost predicate Settled()
      reads this, toplen, llink, rlink, ulink, dlink
    {
      Valid() && DistinctItems(L) && Distinct(covered) && hidden == HiddenOf(L, covered)
    }

    /** init_solver: the header ring links every item, the row loop lays the
        choices out into toplen and ulink, and the dlink passes close the
        column rings; nothing is covered yet. */
    constructor (e: ExactCover)
      requires WellFormed(e)
      ensures ec == e && Built() && Settled() && covered == [] && hidden == []
      ensures fresh(toplen) && fresh(ulink) && fresh(dlink) && fresh(llink) && fresh(rlink)
    {
      var l, r := HeaderRing(|e.items| - 1);
      llink, rlink := l, r;
      var t, u, d := ColumnRings(e);
      toplen, ulink, dlink := t, u, d;
      ec := e;
      L := Arena(e);
      covered := [];
      hidden := [];
      new;
      ArenaWF(e);
    }

    /** The vertical links and the count of node y, read off the rendering. */
    lemma LinksAt(y: int)
      requires Valid() && 0 <= y < |L.top|
      ensures toplen[y] == Len(L, hidden, y) && ulink[y] == Up(L, hidden, y) && dlink[y] == Down(L, hidden, y)
    {
      ColumnAt(L, hidden, y);
    }

    /** Takes element q out of its column ring: its neighbours are joined and its
        item's count drops by one, while q keeps its own links (the three
        assignments in the body of the loop of `hide`). */
    method UnlinkNode(q: int)
      requires Valid() && IsElement(L, q) && q !in hidden
      modifies this, toplen, ulink, dlink
      ensures Valid() && covered == old(covered) && hidden == old(hidden) + [q]
    {
      RemoveNode(L, hidden, q);
      LinksAt(q);
      var x := toplen[q];
      LinksAt(x);
      var u := ulink[q];
      var d := dlink[q];
      ghost var T, U, D := toplen[..], ulink[..], dlink[..];
      dlink[u] := d;
      ulink[d] := u;
      toplen[x] := toplen[x] - 1;
      assert dlink[..] == D[u := d] && ulink[..] == U[d := u] && toplen[..] == T[x := T[x] - 1];
      hidden := hidden + [q];
    }

    /** Puts the most recently removed element q back into its column ring, using
        the links q kept (the three assignments in the body of the loop of `unhide`). */
    method RelinkNode(q: int, ghost hid: seq<int>)
      requires Valid() && IsElement(L, q) && q !in hid && hidden == hid + [q]
      modifies this, toplen, ulink, dlink
      ensures Valid() && covered == old(covered) && hidden == hid
    {
      RestoreNode(L, hid, q);
      LinksAt(q);
      var x := toplen[q];
      LinksAt(x);
      var u := ulink[q];
      var d := dlink[q];
      ghost var T, U, D := toplen[..], ulink[..], dlink[..];
      dlink[u] := q;
      ulink[d] := q;
      toplen[x] := toplen[x] + 1;
      assert dlink[..] == D[u := q] && ulink[..] == U[d := q] && toplen[..] == T[x := T[x] + 1];
      hidden := hid;
    }

    /** hide(p): unlink every other node of p's option from its column, walking
        forwards and wrapping from the closing spacer to the option's first node. */
    method Hide(p: int)
      requires Valid() && IsElement(L, p)
      requires forall y :: y in HideSeq(L, p) ==> y !in hidden
      modifies this, toplen, ulink, dlink
      ensures Valid() && covered == old(covered)
      ensures hidden == old(hidden) + HideSeq(L, p)
    {
      ghost var H := hidden;
      var q := p + 1;
      PushedStart(L, p);
      while q != p
        invariant Valid() && covered == old(covered)
        invariant Cursor(L, p, q) && hidden == H + Pushed(L, p, q)
        decreases StepsRight(L, p, q)
      {
        HideWrap(L, hidden, p);
        HideStep(L, p, q);
        LinksAt(q);
        var x := toplen[q];
        if x <= 0 {
          q := ulink[q];
        } else {
          UnlinkNode(q);
          AppendAssoc(H, Pushed(L, p, q), [q]);
          q := q + 1;
        }
      }
    }

    /** unhide(p): relink the other nodes of p's option, in the reverse order. */
    method Unhide(p: int, ghost H: seq<int>)
      requires Valid() && IsElement(L, p)
      requires hidden == H + HideSeq(L, p)
      requires forall y :: y in HideSeq(L, p) ==> y !in H
      modifies this, toplen, ulink, dlink
      ensures Valid() && covered == old(covered) && hidden == H
    {
      var q := p - 1;
      while q != p
        invariant Valid() && covered == old(covered)
        invariant Cursor(L, p, q + 1) && hidden == H + Pushed(L, p, q + 1)
        decreases StepsLeft(L, p, q)
      {
        q := UnhideOne(p, q, H);
      }
    }

    /** One step of the loop of `unhide(p)` at cursor q: a spacer sends the cursor
        (through its dlink) to the last node of the option, an element is linked
        back into its column and the cursor moves up. */
    method UnhideOne(p: int, q: int, ghost H: seq<int>) returns (q': int)
      requires Valid() && IsElement(L, p) && q != p
      requires Cursor(L, p, q + 1) && hidden == H + Pushed(L, p, q + 1)
      requires forall y :: y in HideSeq(L, p) ==> y !in H
      modifies this, toplen, ulink, dlink
      ensures Valid() && covered == old(covered)
      ensures Cursor(L, p, q' + 1) && hidden == H + Pushed(L, p, q' + 1)
      ensures 0 <= StepsLeft(L, p, q') < StepsLeft(L, p, q)
    {
      UnhideWrap(L, hidden, p);
      UnhideStep(L, p, q);
      LinksAt(q);
      var x := toplen[q];
      if x <= 0 {
        q' := dlink[q];
      } else {
        AppendAssoc(H, Pushed(L, p, q), [q]);
        RelinkNode(q, H + Pushed(L, p, q));
        q' := q - 1;
      }
    }


    /** Takes item i out of the header ring (the last two assignments of `cover`). */
    method UnlinkItem(i: int)
      requires Valid() && 1 <= i <= L.n && i !in covered
      modifies this, llink, rlink
      ensures Valid() && hidden == old(hidden) && covered == old(covered) + [i]
    {
      RemoveHeader(L, covered, i);
      RowAt(L, covered, i);
      var l := llink[i];
      var r := rlink[i];
      ghost var R, Lk := rlink[..], llink[..];
      rlink[l] := r;
      llink[r] := l;
      assert rlink[..] == R[l := r] && llink[..] == Lk[r := l];
      covered := covered + [i];
    }

    /** Puts the most recently covered item i back into the header ring, using the
        links i kept (the first assignments of `uncover`). */
    method RelinkItem(i: int, ghost cs: seq<int>)
      requires Valid() && 1 <= i <= L.n && i !in cs && covered == cs + [i]
      modifies this, llink, rlink
      ensures Valid() && hidden == old(hidden) && covered == cs
    {
      assert Headers(L, cs) by {
        forall k | 0 <= k < |cs| ensures 1 <= cs[k] <= L.n {
          assert cs[k] == covered[k];
        }
      }
      RestoreHeader(L, cs, i);
      RowAt(L, covered, i);
      var l := llink[i];
      var r := rlink[i];
      ghost var R, Lk := rlink[..], llink[..];
      rlink[l] := i;
      llink[r] := i;
      assert rlink[..] == R[l := i] && llink[..] == Lk[r := i];
      covered := cs;
    }

    /** The loop of cover(i): hide the option of every node of column i, top to
        bottom, following dlink from the header. */
    method HideColumn(i: int)
      requires Settled() && 1 <= i <= L.n && i !in covered
      modifies this, toplen, ulink, dlink
      ensures Valid() && covered == old(covered)
      ensures hidden == old(hidden) + CoverPushes(L, i, old(hidden))
    {
      ghost var C0, H0 := covered, hidden;
      CoverStart(L, i, H0);
      LinksAt(i);
      var p := dlink[i];
      while p != i
        invariant Valid() && covered == C0
        invariant CoverAt(L, i, H0, p, hidden)
        decreases if p == i then 0 else |L.top| + 1 - p
      {
        CoverLoopStep(L, C0, H0, i, p, hidden);
        Hide(p);
        LinksAt(p);
        p := dlink[p];
      }
    }

    /** cover(i): hide the options of column i, then take i out of the header ring. */
    method Cover(i: int)
      requires Settled() && 1 <= i <= L.n && i !in covered
      modifies this, toplen, ulink, dlink, llink, rlink
      ensures Settled() && covered == old(covered) + [i]
    {
      HiddenOfAppend(L, covered, i);
      DistinctPush(covered, i);
      HideColumn(i);
      UnlinkItem(i);
    }

    /** The loop of uncover(i): unhide the options of column i bottom to top,
        following ulink from the header. */
    method UnhideColumn(i: int, ghost H0: seq<int>)
      requires Valid() && DistinctItems(L) && Distinct(covered) && H0 == HiddenOf(L, covered)
      requires 1 <= i <= L.n && i !in covered && hidden == H0 + CoverPushes(L, i, H0)
      modifies this, toplen, ulink, dlink
      ensures Valid() && covered == old(covered) && hidden == H0
    {
      ghost var C0 := covered;
      UncoverStart(L, i, H0);
      LinksAt(i);
      var p := ulink[i];
      while p != i
        invariant Valid() && covered == C0
        invariant UncoverAt(L, i, H0, p, hidden)
        decreases if p == i then 0 else p + 1
      {
        p := UnhideAbove(i, H0, p);
      }
    }

    /** One turn of the loop of uncover(i): unhide the option of node p of
        column i and move up to the node above it. */
    method UnhideAbove(i: int, ghost H0: seq<int>, p: int) returns (q: int)
      requires Valid() && DistinctItems(L) && Distinct(covered) && H0 == HiddenOf(L, covered)
      requires 1 <= i <= L.n && i !in covered && UncoverAt(L, i, H0, p, hidden) && p != i
      modifies this, toplen, ulink, dlink
      ensures Valid() && covered == old(covered)
      ensures (q == i || q < p) && UncoverAt(L, i, H0, q, hidden)
    {
      ghost var H', t := UncoverLoopStep(L, covered, H0, i, p, hidden);
      Unhide(p, H');
      LinksAt(p);
      q := ulink[p];
    }

    /** uncover(i): put i back into the header ring, then unhide the options of
        column i, undoing `cover(i)` exactly. */
    method Uncover(i: int)
      requires Settled() && |covered| > 0 && covered[|covered| - 1] == i
      modifies this, toplen, ulink, dlink, llink, rlink
      ensures Settled() && covered == old(covered)[..|old(covered)| - 1]
    {
      ghost var C0 := covered[..|covered| - 1];
      SplitLast(covered);
      DistinctPop(C0, i);
      assert Headers(L, C0) && Distinct(C0) && i !in C0 && 1 <= i <= L.n;
      HiddenOfAppend(L, C0, i);
      RelinkItem(i, C0);
      UnhideColumn(i, HiddenOf(L, C0));
    }

    /** The dance: covering item i and uncovering it again puts all five link
        vectors back as they were. */
    method CoverUncover(i: int)
      requires Settled() && 1 <= i <= L.n && i !in covered
      modifies this, toplen, ulink, dlink, llink, rlink
      ensures Settled() && covered == old(covered) && hidden == old(hidden)
      ensures toplen[..] == old(toplen[..]) && ulink[..] == old(ulink[..]) && dlink[..] == old(dlink[..])
      ensures llink[..] == old(llink[..]) && rlink[..] == old(rlink[..])
    {
      Cover(i);
      Uncover(i);
      assert (old(covered) + [i])[..|old(covered)|] == old(covered);
    }

    /** Item selection of the search (X3): the first item in header-ring order
        whose column holds the fewest nodes. */
    method SelectItem() returns (i: int)
      requires Valid() && rlink[0] != 0
      ensures 1 <= i <= L.n && i !in covered
      ensures forall j :: 1 <= j <= L.n && j !in covered ==> toplen[i] <= toplen[j]
      ensures forall j :: 1 <= j < i && j !in covered ==> toplen[i] < toplen[j]
    {
      RightOf(L, covered, 0);
      var item := rlink[0];
      var minlen := toplen[item];
      i := item;
      while item != 0
        invariant 1 <= i <= L.n && i !in covered && minlen == toplen[i]
        invariant item == 0 || (i <= item <= L.n && item !in covered)
        invariant forall j :: 1 <= j < (if item == 0 then L.n + 1 else item) && j !in covered ==>
                    minlen <= toplen[j] && (j < i ==> minlen < toplen[j])
        decreases if item == 0 then 0 else L.n + 1 - item
      {
        if toplen[item] < minlen {
          minlen := toplen[item];
          i := item;
        }
        RightOf(L, covered, item);
        item := rlink[item];
      }
    }

    /** The commit loop of the search (after X5): cover every other item of x's
        option, walking right from x and wrapping at the closing spacer. */
    method CoverOthers(x: int)
      requires Settled() && IsElement(L, x)
      requires forall y :: y in HideSeq(L, x) ==> L.top[y] !in covered
      modifies this, toplen, ulink, dlink, llink, rlink
      ensures Settled() && covered == old(covered) + MapTop(L, HideSeq(L, x))
    {
      ghost var C := covered;
      var p := x + 1;
      PushedStart(L, x);
      while p != x
        invariant Settled() && Cursor(L, x, p) && covered == C + MapTop(L, Pushed(L, x, p))
        decreases StepsRight(L, x, p)
      {
        p := CommitAt(x, p, C);
      }
    }

    /** One turn of the commit walk at node p: a spacer sends the walk (through
        its ulink) back to the first node of x's option, an element's item is
        covered and the walk moves right. */
    method CommitAt(x: int, p: int, ghost C: seq<int>) returns (q: int)
      requires Settled() && IsElement(L, x) && Cursor(L, x, p) && p != x
      requires forall y :: y in HideSeq(L, x) ==> L.top[y] !in C
      requires covered == C + MapTop(L, Pushed(L, x, p))
      modifies this, toplen, ulink, dlink, llink, rlink
      ensures Settled() && Cursor(L, x, q) && covered == C + MapTop(L, Pushed(L, x, q))
      ensures if p > x then q == OptStart(L, x) || q == p + 1 else q == p + 1
    {
      CommitStep(L, hidden, x, p, C);
      LinksAt(p);
      var j := toplen[p];
      if j <= 0 {
        q := ulink[p];
      } else {
        Cover(j);
        q := p + 1;
      }
    }

    /** The uncommit loop of the search (X6): uncover the other items of x's
        option in the reverse order, walking left from x and wrapping at the
        spacer before the option. */
    method UncoverOthers(x: int, ghost C: seq<int>)
      requires Settled() && IsElement(L, x) && covered == C + MapTop(L, HideSeq(L, x))
      modifies this, toplen, ulink, dlink, llink, rlink
      ensures Settled() && covered == C
    {
      var p := x - 1;
      while p != x
        invariant Settled() && Cursor(L, x, p + 1) && covered == C + MapTop(L, Pushed(L, x, p + 1))
        decreases StepsLeft(L, x, p)
      {
        p := UncommitAt(x, p, C);
      }
    }

    /** One turn of the uncommit walk at node p: a spacer sends the walk (through
        its dlink) to the last node of x's option, an element's item is
        uncovered and the walk moves left. */
    method UncommitAt(x: int, p: int, ghost C: seq<int>) returns (q: int)
      requires Settled() && IsElement(L, x) && Cursor(L, x, p + 1) && p != x
      requires covered == C + MapTop(L, Pushed(L, x, p + 1))
      modifies this, toplen, ulink, dlink, llink, rlink
      ensures Settled() && Cursor(L, x, q + 1) && covered == C + MapTop(L, Pushed(L, x, q + 1))
      ensures if p < x then q == OptEnd(L, x) - 1 || q == p - 1 else q == p - 1
    {
      UncommitStep(L, hidden, x, p, C);
      LinksAt(p);
      var j := toplen[p];
      if j <= 0 {
        q := dlink[p];
      } else {
        Uncover(j);
        q := p - 1;
      }
    }

    /** The inner walk of the read-out: from node y, step right while toplen is
        positive.  From an element node it stops at the spacer closing y's option,
        whose toplen is minus the option's number. */
    method SpacerFrom(y: int) returns (q: int)
      requires Valid() && 0 <= y < |L.top|
      ensures y <= q < |L.top| && toplen[q] <= 0
      ensures IsElement(L, y) ==> q == OptEnd(L, y) && -toplen[q] == OptionNumber(L, y)
    {
      q := y;
      while toplen[q] > 0
        invariant y <= q < |L.top| && (IsElement(L, y) ==> q <= OptEnd(L, y))
        decreases |L.top| - q
      {
        LinksAt(q);
        q := q + 1;
      }
      LinksAt(q);
      if IsElement(L, y) {
        WallFromAll(L, y);
        HideWrap(L, [], y);
      }
    }

    /** The read-out at the end of `solve`: every entry of x is replaced by the
        number of the option its node lies in; the first l entries are the
        solution. */
    method ReadOptions(x0: seq<int>, l: int) returns (sol: seq<int>)
      requires Valid() && 0 <= l <= |x0|
      requires forall k :: 0 <= k < |x0| ==> 0 <= x0[k] < |L.top|
      requires AllElements(L, x0[..l])
      ensures sol == OptionsOf(L, x0[..l])
    {
      var x := x0;
      var i := 0;
      while i < |x|
        invariant 0 <= i <= |x| == |x0|
        invariant forall k :: 0 <= k < i && k < l ==> x[k] == OptionNumber(L, x0[k])
        invariant forall k :: i <= k < |x| ==> x[k] == x0[k]
      {
        assert i < l ==> IsElement(L, x0[..l][i]);
        var q := SpacerFrom(x[i]);
        x := x[i := -toplen[q]];
        i := i + 1;
      }
      sol := x[..l];
      forall k | 0 <= k < l ensures sol[k] == OptionsOf(L, x0[..l])[k] {
        OptionsOfAt(L, x0[..l], k);
      }
    }

    /** The search at level l has covered i, the item chosen there, and x[l] is
        the header i (the column is used up) or the next fresh node of column i to
        try. */
    ghost predicate Trying(x: seq<int>, l: int, xs: seq<int>, i: int)
      reads this, toplen, llink, rlink, ulink, dlink
    {
      && Settled() && Stack(L, x, l, xs) && l < |x|
      && AllElements(L, xs) && Committed(L, xs) && Headers(L, Chosen(L, xs))
      && 1 <= i <= L.n && covered == Chosen(L, xs) + [i]
      && (x[l] == i || (Fresh(L, Chosen(L, xs), x[l]) && L.top[x[l]] == i))
    }

    /** X3-X4 of `solve`: choose the item i with the fewest nodes, cover it, and
        make its first remaining node (or its header, when none is left) the
        node to try at level l. */
    method Choose(x: seq<int>, l: int, ghost xs: seq<int>) returns (i: int, x': seq<int>)
      requires Settled() && Stack(L, x, l, xs) && rlink[0] != 0
      requires AllElements(L, xs) && Committed(L, xs) && covered == Chosen(L, xs)
      modifies this, toplen, ulink, dlink, llink, rlink
      ensures Trying(x', l, xs, i)
      ensures Measure(L, xs + [x'[l]], |x|) < Measure(L, xs, |x|)
    {
      i := SelectItem();
      ChosenHeaders(L, xs);
      MissingItem(L, covered, i);
      FirstCandidate(L, covered, i);
      Cover(i);
      x' := FirstToTry(x, l, xs, i);
      MeasurePush(L, xs, x'[l], |x|);
    }

    /** X5 of `solve` on entering level l: the node to try first is the one below
        the header of the item just covered. */
    method FirstToTry(x: seq<int>, l: int, ghost xs: seq<int>, i: int) returns (x': seq<int>)
      requires Settled() && Stack(L, x, l, xs) && l < |x|
      requires AllElements(L, xs) && Committed(L, xs) && Headers(L, Chosen(L, xs))
      requires 1 <= i <= L.n && covered == Chosen(L, xs) + [i]
      requires var t := Down(L, HiddenOf(L, covered), i);
               t == i || (Fresh(L, Chosen(L, xs), t) && L.top[t] == i)
      ensures Trying(x', l, xs, i) && x' == x[l := Down(L, hidden, i)]
    {
      LinksAt(i);
      x' := x[l := dlink[i]];
    }

    /** X6 of `solve`, back at level l: uncover the other items of the node x[l]
        tried there, in the reverse order, and move x[l] on to the next node of
        its column, or to the column's header when there is none. */
    method Retreat(x: seq<int>, l: int, ghost xs: seq<int>) returns (i: int, x': seq<int>)
      requires Settled() && 0 <= l && Stack(L, x, l + 1, xs)
      requires AllElements(L, xs) && Committed(L, xs) && covered == Chosen(L, xs)
      modifies this, toplen, ulink, dlink, llink, rlink
      ensures Trying(x', l, xs[..l], i)
      ensures x'[l] == i || xs[l] < x'[l]
    {
      ghost var y := xs[l];
      CommittedPop(L, xs);
      AppendAssoc(Chosen(L, xs[..l]), [L.top[y]], MapTop(L, HideSeq(L, y)));
      UncoverOthers(x[l], Chosen(L, xs[..l]) + [L.top[y]]);
      i, x' := NextToTry(x, l, xs);
    }

    /** The end of X6: with the option of y = x[l] uncovered again except for
        y's own item i, x[l] moves on to the node below y, which is i or a later
        fresh node of column i. */
    method NextToTry(x: seq<int>, l: int, ghost xs: seq<int>) returns (i: int, x': seq<int>)
      requires Settled() && 0 <= l && Stack(L, x, l + 1, xs)
      requires AllElements(L, xs) && Committed(L, xs)
      requires covered == Chosen(L, xs[..l]) + [L.top[xs[l]]]
      ensures Trying(x', l, xs[..l], i)
      ensures x'[l] == i || xs[l] < x'[l]
    {
      ghost var y := xs[l];
      CommittedPop(L, xs);
      ghost var cs := Chosen(L, xs[..l]);
      LinksAt(y);
      i := toplen[x[l]];
      NextCandidate(L, cs, i, y);
      x' := x[l := dlink[x[l]]];
      StackRetreat(L, x, l, xs, x'[l]);
    }

    /** X5-X8 of `solve`: while level l has run out of nodes to try, uncover its
        item and go back one level (X7, X8, X6).  Gives up when level 0 runs out;
        otherwise x[l] is a fresh node to commit to.  Each step back lowers the
        search measure. */
    method Backtrack(x0: seq<int>, l0: int, i0: int, ghost xs0: seq<int>, ghost V0: int)
      returns (x: seq<int>, l: int, i: int, given_up: bool, ghost xs: seq<int>)
      requires Trying(x0, l0, xs0, i0) && Measure(L, xs0 + [x0[l0]], |x0|) < V0
      modifies this, toplen, ulink, dlink, llink, rlink
      ensures Settled() && Stack(L, x, l, xs) && |x| == |x0|
      ensures given_up ==> covered == []
      ensures !given_up ==> Trying(x, l, xs, i) && x[l] != i
      ensures !given_up ==> Measure(L, xs + [x[l]], |x|) < V0
    {
      x, l, i, xs := x0, l0, i0, xs0;
      given_up := false;
      while x[l] == i
        invariant Trying(x, l, xs, i) && |x| == |x0| && Measure(L, xs + [x[l]], |x|) < V0
        decreases l
      {
        Uncover(i);
        if l == 0 {
          given_up := true;
          return;
        }
        ghost var c := x[l];
        l := l - 1;
        i, x := Retreat(x, l, xs);
        MeasureRetreat(L, xs, c, x[l], |x|);
        xs := xs[..l];
      }
    }

    /** The rest of X5 of `solve`: commit to the node y = x[l], covering the
        other items of its option, walking right from it. */
    method Commit(x: seq<int>, l: int, ghost xs: seq<int>, i: int)
      requires Trying(x, l, xs, i) && x[l] != i
      modifies this, toplen, ulink, dlink, llink, rlink
      ensures Settled()
      ensures AllElements(L, xs + [x[l]]) && Committed(L, xs + [x[l]])
      ensures covered == Chosen(L, xs + [x[l]])
    {
      CommitReady(L, xs, x[l], i, covered);
      CoverOthers(x[l]);
    }

    /** X3-X8 of one round of the search loop: choose and cover an item, then
        back up while no node is left to try.  Either gives up with every item
        uncovered again, or leaves a fresh node x'[l'] to commit to, below the
        search measure of where the round started. */
    method Descend(x: seq<int>, l: int, ghost xs: seq<int>)
      returns (x': seq<int>, l': int, i: int, given_up: bool, ghost xs': seq<int>)
      requires Settled() && Stack(L, x, l, xs) && rlink[0] != 0
      requires AllElements(L, xs) && Committed(L, xs) && covered == Chosen(L, xs)
      modifies this, toplen, ulink, dlink, llink, rlink
      ensures Settled() && Stack(L, x', l', xs')
      ensures given_up ==> covered == []
      ensures !given_up ==> Trying(x', l', xs', i) && x'[l'] != i
      ensures !given_up ==> Measure(L, xs' + [x'[l']], |x|) < Measure(L, xs, |x|)
    {
      var y;
      i, y := Choose(x, l, xs);
      x', l', i, given_up, xs' := Backtrack(y, l, i, xs, Measure(L, xs, |x|));
    }

    /** One round of the search loop: X3-X8, then the rest of X5.  Gives up
        with every item uncovered again, or ends one level deeper, or at a
        lower level with a later node, in either case below the search measure
        of where the round started. */
    method Advance(x: seq<int>, l: int, ghost xs: seq<int>)
      returns (x': seq<int>, l': int, given_up: bool, ghost xs': seq<int>)
      requires Settled() && Stack(L, x, l, xs) && rlink[0] != 0
      requires AllElements(L, xs) && Committed(L, xs) && covered == Chosen(L, xs)
      modifies this, toplen, ulink, dlink, llink, rlink
      ensures Settled() && Stack(L, x', l', xs')
      ensures given_up ==> covered == []
      ensures !given_up ==> AllElements(L, xs') && Committed(L, xs') && covered == Chosen(L, xs')
      ensures !given_up ==> Measure(L, xs', |x|) < Measure(L, xs, |x|)
    {
      var k, i;
      ghost var ys;
      x', k, i, given_up, ys := Descend(x, l, xs);
      if given_up {
        l', xs' := k, ys;
        return;
      }
      Commit(x', k, ys, i);
      StackPush(L, x', k, ys);
      l', xs' := k + 1, ys + [x'[k]];
    }

    /** With the header ring empty, every item is covered. */
    lemma AllCovered()
      requires Settled() && rlink[0] == 0
      ensures forall j :: 1 <= j <= L.n ==> j in covered
    {
      RowAt(L, covered, 0);
      PriorNotIn(covered, 0);
      RNextSpec(L, 1, Elems(covered));
      forall j | 1 <= j <= L.n ensures j in covered {
        assert j in Elems(covered);
      }
    }

    /** The search loop of `solve` (X1-X8): Knuth's Algorithm X over the dancing
        links.  It either gives up with every item uncovered again, or stops with
        every item covered by the options whose nodes are x[0 .. l). */
    method Search() returns (x: seq<int>, l: int, given_up: bool)
      requires Settled() && covered == []
      modifies this, toplen, ulink, dlink, llink, rlink
      ensures Settled() && |x| == L.n && 0 <= l <= |x|
      ensures forall k :: 0 <= k < |x| ==> 0 <= x[k] < |L.top|
      ensures given_up ==> covered == []
      ensures !given_up ==> AllElements(L, x[..l]) && covered == Chosen(L, x[..l])
      ensures !given_up ==> forall j :: 1 <= j <= L.n ==> j in covered
    {
      var N := llink.Length - 1;
      l := 0;
      x := seq(N, _ => 0);
      ghost var xs: seq<int> := [];
      given_up := false;
      while rlink[0] != 0
        invariant Settled() && Stack(L, x, l, xs)
        invariant AllElements(L, xs) && Committed(L, xs) && covered == Chosen(L, xs)
        decreases Measure(L, xs, N)
      {
        MeasureNonneg(L, xs, N);
        x, l, given_up, xs := Advance(x, l, xs);
        if given_up {
          return;
        }
      }
      AllCovered();
      assert x[..l] == xs;
    }

    /** solve(): the search, then the read-out.  When it does not give up, the
        choices it returns form an exact cover of the instance, listed in the
        order the search chose them: the option of the node tried at each level,
        whose items were covered level by level.  When it gives up, it returns
        no choice and every item is uncovered again. */
    method Solve() returns (sol: seq<int>, ghost exhausted: bool, ghost nodes: seq<int>)
      requires Settled() && covered == [] && Built()
      modifies this, toplen, ulink, dlink, llink, rlink
      ensures Settled()
      ensures exhausted ==> sol == [] && covered == []
      ensures !exhausted ==> IsExactCover(ec, sol)
      ensures !exhausted ==> AllElements(L, nodes) && covered == Chosen(L, nodes) && sol == OptionsOf(L, nodes)
    {
      var x, l, given_up := Search();
      exhausted := given_up;
      nodes := x[..l];
      if given_up {
        sol := [];
      } else {
        sol := ReadOptions(x, l);
        ArenaRealizes(ec);
        StackSolves(ec, L, x[..l]);
      }
    }
  }
  /** init_solver followed by solve, as the program runs them: the returned
      choice numbers are an exact cover of the instance unless the search gives
      up, in which case none is returned. */
  method SolveInstance(e: ExactCover) returns (sol: seq<int>, ghost exhausted: bool)
    requires WellFormed(e)
    ensures exhausted ==> sol == []
    ensures !exhausted ==> IsExactCover(e, sol)
    ensures sol == [] || IsExactCover(e, sol)
  {
    var solver := new Solver(e);
    ghost var nodes;
    sol, exhausted, nodes := solver.Solve();
  }
}
