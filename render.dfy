/** The contents of the five link vectors as a function of what has been removed.

    Dancing links never rewrite the links of a node it removes, so a removed node
    keeps pointing at the neighbours it had when it was removed.  When removals and
    re-insertions happen in last-in-first-out order (as they do in `cover`/`uncover`
    and `hide`/`unhide`), the whole link state is therefore determined by the stack
    of removed nodes: a node that is still linked points at its nearest linked
    neighbours, and a removed node points at the nearest neighbours that were still
    linked when it was removed, i.e. skipping only the nodes pushed before it.
    Column rings keep nodes in index order (which is option order), the header ring
    keeps headers in item order. */
module Render {
  import opened Layouts

  function Elems(s: seq<int>): set<int> {
    set x | x in s
  }

  /** The nodes removed before y: the whole stack when y is not on it, otherwise
      the part of the stack below y. */
  function Prior(s: seq<int>, y: int): set<int>
    decreases |s|
  {
    if |s| == 0 then {}
    else if s[0] == y then {}
    else {s[0]} + Prior(s[1..], y)
  }

  lemma PriorNotIn(s: seq<int>, y: int)
    requires y !in s
    ensures Prior(s, y) == Elems(s)
    decreases |s|
  {
    if |s| > 0 {
      PriorNotIn(s[1..], y);
      assert Elems(s) == {s[0]} + Elems(s[1..]);
    }
  }

  lemma PriorAppend(s: seq<int>, q: int, y: int)
    ensures Prior(s + [q], y) ==
            if y in s then Prior(s, y) else if y == q then Elems(s) else Elems(s) + {q}
    decreases |s|
  {
    if |s| == 0 {
    } else {
      assert (s + [q])[1..] == s[1..] + [q];
      PriorAppend(s[1..], q, y);
      assert Elems(s) == {s[0]} + Elems(s[1..]);
    }
  }

  lemma ElemsAppend(s: seq<int>, q: int)
    ensures Elems(s + [q]) == Elems(s) + {q}
  {
  }

  // ---------------------------------------------------------------------------
  // The rendered link state

  /** dlink of node y. Headers point at their first linked node; element nodes at
      the next node of their column that was linked when they were last linked;
      the root's and the spacers' dlink are never written after construction. */
  function Down(L: Layout, hid: seq<int>, y: int): int
    requires Sized(L) && 0 <= y < |L.top|
  {
    if 1 <= y <= L.n then NextIn(L, y, L.n + 2, Elems(hid))
    else if IsElement(L, y) then NextIn(L, L.top[y], y + 1, Prior(hid, y))
    else if y == 0 then L.n
    else
      var w := WallFrom(L, y + 1);
      if w == |L.top| then 0 else w - 1
  }

  /** ulink of node y. A spacer's ulink is the first node of the option before it. */
  function Up(L: Layout, hid: seq<int>, y: int): int
    requires Sized(L) && 0 <= y < |L.top|
  {
    if 1 <= y <= L.n then PrevIn(L, y, |L.top| - 1, Elems(hid))
    else if IsElement(L, y) then PrevIn(L, L.top[y], y - 1, Prior(hid, y))
    else if y <= L.n + 1 then 0
    else if IsElement(L, y - 1) then OptStart(L, y - 1)
    else y
  }

  /** toplen of node y: a header's live count, otherwise the static entry. */
  function Len(L: Layout, hid: seq<int>, y: int): int
    requires Sized(L) && 0 <= y < |L.top|
  {
    if 1 <= y <= L.n then CountFrom(L, y, L.n + 2, Elems(hid)) else L.top[y]
  }

  /** rlink of header x, given the stack cs of covered items. */
  function RLink(L: Layout, cs: seq<int>, x: int): int
    requires 0 <= x <= L.n
  {
    RNext(L, x + 1, Prior(cs, x))
  }

  /** llink of header x, given the stack cs of covered items. */
  function LLink(L: Layout, cs: seq<int>, x: int): int
    requires 0 <= x <= L.n
  {
    LPrev(L, if x == 0 then L.n else x - 1, Prior(cs, x))
  }

  // Each vector is tabulated by a recursion over its length, so that a term
  // denoting a whole vector does not unfold into every one of its entries; the
  // *At lemmas give the entries.

  function DownTab(L: Layout, hid: seq<int>, k: int): (r: seq<int>)
    requires Sized(L) && 0 <= k <= |L.top|
    ensures |r| == k
    decreases k
  {
    if k == 0 then [] else DownTab(L, hid, k - 1) + [Down(L, hid, k - 1)]
  }

  function UpTab(L: Layout, hid: seq<int>, k: int): (r: seq<int>)
    requires Sized(L) && 0 <= k <= |L.top|
    ensures |r| == k
    decreases k
  {
    if k == 0 then [] else UpTab(L, hid, k - 1) + [Up(L, hid, k - 1)]
  }

  function LenTab(L: Layout, hid: seq<int>, k: int): (r: seq<int>)
    requires Sized(L) && 0 <= k <= |L.top|
    ensures |r| == k
    decreases k
  {
    if k == 0 then [] else LenTab(L, hid, k - 1) + [Len(L, hid, k - 1)]
  }

  function RTab(L: Layout, cs: seq<int>, k: int): (r: seq<int>)
    requires 0 <= k <= L.n + 1
    ensures |r| == k
    decreases k
  {
    if k == 0 then [] else RTab(L, cs, k - 1) + [RLink(L, cs, k - 1)]
  }

  function LTab(L: Layout, cs: seq<int>, k: int): (r: seq<int>)
    requires 0 <= k <= L.n + 1
    ensures |r| == k
    decreases k
  {
    if k == 0 then [] else LTab(L, cs, k - 1) + [LLink(L, cs, k - 1)]
  }

  /** The dlink vector rendered for the hidden stack hid. */
  function DownSeq(L: Layout, hid: seq<int>): (r: seq<int>)
    requires Sized(L)
    ensures |r| == |L.top|
  {
    DownTab(L, hid, |L.top|)
  }

  /** The ulink vector rendered for the hidden stack hid. */
  function UpSeq(L: Layout, hid: seq<int>): (r: seq<int>)
    requires Sized(L)
    ensures |r| == |L.top|
  {
    UpTab(L, hid, |L.top|)
  }

  /** The toplen vector rendered for the hidden stack hid. */
  function LenSeq(L: Layout, hid: seq<int>): (r: seq<int>)
    requires Sized(L)
    ensures |r| == |L.top|
  {
    LenTab(L, hid, |L.top|)
  }

  /** The rlink vector rendered for the covered stack cs. */
  function RSeq(L: Layout, cs: seq<int>): (r: seq<int>)
    ensures |r| == L.n + 1
  {
    RTab(L, cs, L.n + 1)
  }

  /** The llink vector rendered for the covered stack cs. */
  function LSeq(L: Layout, cs: seq<int>): (r: seq<int>)
    ensures |r| == L.n + 1
  {
    LTab(L, cs, L.n + 1)
  }

  lemma {:induction false} ColumnTabsAt(L: Layout, hid: seq<int>, k: int, y: int)
    requires Sized(L) && 0 <= y < k <= |L.top|
    ensures DownTab(L, hid, k)[y] == Down(L, hid, y)
    ensures UpTab(L, hid, k)[y] == Up(L, hid, y)
    ensures LenTab(L, hid, k)[y] == Len(L, hid, y)
    decreases k
  {
    if y < k - 1 {
      ColumnTabsAt(L, hid, k - 1, y);
    }
  }

  lemma {:induction false} RowTabsAt(L: Layout, cs: seq<int>, k: int, x: int)
    requires 0 <= x < k <= L.n + 1
    ensures RTab(L, cs, k)[x] == RLink(L, cs, x)
    ensures LTab(L, cs, k)[x] == LLink(L, cs, x)
    decreases k
  {
    if x < k - 1 {
      RowTabsAt(L, cs, k - 1, x);
    }
  }

  /** The entries of the rendered column vectors. */
  lemma ColumnsAt(L: Layout, hid: seq<int>)
    requires Sized(L)
    ensures forall y :: 0 <= y < |L.top| ==>
              DownSeq(L, hid)[y] == Down(L, hid, y) && UpSeq(L, hid)[y] == Up(L, hid, y)
              && LenSeq(L, hid)[y] == Len(L, hid, y)
  {
    forall y | 0 <= y < |L.top|
      ensures DownSeq(L, hid)[y] == Down(L, hid, y) && UpSeq(L, hid)[y] == Up(L, hid, y)
              && LenSeq(L, hid)[y] == Len(L, hid, y)
    {
      ColumnTabsAt(L, hid, |L.top|, y);
    }
  }

  lemma ColumnAt(L: Layout, hid: seq<int>, y: int)
    requires Sized(L) && 0 <= y < |L.top|
    ensures DownSeq(L, hid)[y] == Down(L, hid, y) && UpSeq(L, hid)[y] == Up(L, hid, y)
    ensures LenSeq(L, hid)[y] == Len(L, hid, y)
  {
    ColumnTabsAt(L, hid, |L.top|, y);
  }

  lemma RowAt(L: Layout, cs: seq<int>, x: int)
    requires 0 <= x <= L.n
    ensures RSeq(L, cs)[x] == RLink(L, cs, x) && LSeq(L, cs)[x] == LLink(L, cs, x)
  {
    RowTabsAt(L, cs, L.n + 1, x);
  }

  /** Following rlink from a live header x skips exactly the covered items up to
      the next live one, or returns to the root when none is left. */
  lemma RightOf(L: Layout, cs: seq<int>, x: int)
    requires 0 <= x <= L.n && x !in cs
    ensures var r := RSeq(L, cs)[x];
            || (r == 0 && forall t :: x < t <= L.n ==> t in cs)
            || (x < r <= L.n && r !in cs && forall t :: x < t < r ==> t in cs)
  {
    RowAt(L, cs, x);
    PriorNotIn(cs, x);
    RNextSpec(L, x + 1, Elems(cs));
    assert forall t :: t in Elems(cs) <==> t in cs;
  }

  /** The entries of the rendered header-ring vectors. */
  lemma RowsAt(L: Layout, cs: seq<int>)
    ensures forall x :: 0 <= x <= L.n ==> RSeq(L, cs)[x] == RLink(L, cs, x) && LSeq(L, cs)[x] == LLink(L, cs, x)
  {
    forall x | 0 <= x <= L.n
      ensures RSeq(L, cs)[x] == RLink(L, cs, x) && LSeq(L, cs)[x] == LLink(L, cs, x)
    {
      RowTabsAt(L, cs, L.n + 1, x);
    }
  }

  // ---------------------------------------------------------------------------
  // Removing one node from its column ring

  lemma NextRemove(L: Layout, c: int, s: int, R: set<int>, q: int)
    requires Sized(L) && L.n + 2 <= s <= |L.top| && c <= L.n && L.n + 2 <= q < |L.top|
    ensures NextIn(L, c, s, R + {q}) ==
            if NextIn(L, c, s, R) == q then NextIn(L, c, q + 1, R) else NextIn(L, c, s, R)
    decreases |L.top| - s
  {
    if s == |L.top| {
    } else if s == q {
      NextIgnoreFrom(L, c, q + 1, R, R + {q});
    } else {
      NextRemove(L, c, s + 1, R, q);
    }
  }

  lemma NextIgnoreFrom(L: Layout, c: int, s: int, R: set<int>, R': set<int>)
    requires Sized(L) && L.n + 2 <= s <= |L.top|
    requires forall t :: s <= t < |L.top| && L.top[t] == c ==> (t in R <==> t in R')
    ensures NextIn(L, c, s, R) == NextIn(L, c, s, R')
    decreases |L.top| - s
  {
    if s < |L.top| { NextIgnoreFrom(L, c, s + 1, R, R'); }
  }

  lemma PrevRemove(L: Layout, c: int, s: int, R: set<int>, q: int)
    requires Sized(L) && L.n + 1 <= s < |L.top| && c <= L.n && L.n + 2 <= q < |L.top|
    ensures PrevIn(L, c, s, R + {q}) ==
            if PrevIn(L, c, s, R) == q then PrevIn(L, c, q - 1, R) else PrevIn(L, c, s, R)
    decreases s
  {
    if s == L.n + 1 {
    } else if s == q {
      PrevIgnoreTo(L, c, q - 1, R, R + {q});
    } else {
      PrevRemove(L, c, s - 1, R, q);
    }
  }

  lemma PrevIgnoreTo(L: Layout, c: int, s: int, R: set<int>, R': set<int>)
    requires Sized(L) && L.n + 1 <= s < |L.top|
    requires forall t :: L.n + 2 <= t <= s && L.top[t] == c ==> (t in R <==> t in R')
    ensures PrevIn(L, c, s, R) == PrevIn(L, c, s, R')
    decreases s
  {
    if s > L.n + 1 { PrevIgnoreTo(L, c, s - 1, R, R'); }
  }

  /** The neighbours u = ulink and d = dlink of a linked element q. */
  function UpOf(L: Layout, R: set<int>, q: int): int
    requires Sized(L) && IsElement(L, q)
  {
    PrevIn(L, L.top[q], q - 1, R)
  }

  function DownOf(L: Layout, R: set<int>, q: int): int
    requires Sized(L) && IsElement(L, q)
  {
    NextIn(L, L.top[q], q + 1, R)
  }

  /** The neighbours of a linked node are linked nodes of its column or its header. */
  lemma NeighboursOf(L: Layout, R: set<int>, q: int)
    requires InRange(L) && IsElement(L, q)
    ensures var c, u, d := L.top[q], UpOf(L, R, q), DownOf(L, R, q);
      && (u == c || (L.n + 2 <= u < q && Live(L, c, u, R)))
      && (forall t :: (if u == c then L.n + 2 else u + 1) <= t < q ==> !Live(L, c, t, R))
      && (d == c || (q < d < |L.top| && Live(L, c, d, R)))
      && (forall t :: q < t < (if d == c then |L.top| else d) ==> !Live(L, c, t, R))
  {
    PrevInSpec(L, L.top[q], q - 1, R);
    NextInSpec(L, L.top[q], q + 1, R);
  }

  lemma DownAt(L: Layout, hid: seq<int>, q: int, y: int)
    requires InRange(L) && IsElement(L, q) && q !in hid && 0 <= y < |L.top|
    ensures var R := Elems(hid);
            Down(L, hid + [q], y) == if y == UpOf(L, R, q) then DownOf(L, R, q) else Down(L, hid, y)
  {
    var R := Elems(hid);
    NeighboursOf(L, R, q);
    if 1 <= y <= L.n {
      DownAtHeader(L, hid, q, y);
    } else if IsElement(L, y) {
      DownAtElement(L, hid, q, y);
    }
  }

  lemma DownAtHeader(L: Layout, hid: seq<int>, q: int, y: int)
    requires InRange(L) && IsElement(L, q) && q !in hid && 1 <= y <= L.n
    ensures var R := Elems(hid);
            Down(L, hid + [q], y) == if y == UpOf(L, R, q) then DownOf(L, R, q) else Down(L, hid, y)
  {
    var R, c := Elems(hid), L.top[q];
    NeighboursOf(L, R, q);
    ElemsAppend(hid, q);
    if y != c {
      NextIgnore(L, y, L.n + 2, R, R + {q});
    } else {
      NextRemove(L, c, L.n + 2, R, q);
      NextInIs(L, c, L.n + 2, R, q);
      NextInSpec(L, c, L.n + 2, R);
    }
  }

  lemma DownAtElement(L: Layout, hid: seq<int>, q: int, y: int)
    requires InRange(L) && IsElement(L, q) && q !in hid && IsElement(L, y)
    ensures var R := Elems(hid);
            Down(L, hid + [q], y) == if y == UpOf(L, R, q) then DownOf(L, R, q) else Down(L, hid, y)
  {
    var R, c := Elems(hid), L.top[q];
    var u := UpOf(L, R, q);
    NeighboursOf(L, R, q);
    ElemsAppend(hid, q);
    PriorAppend(hid, q, y);
    if y in hid {
      assert y != u;
    } else if y == q {
      PriorNotIn(hid, q);
    } else if L.top[y] != c {
      PriorNotIn(hid, y);
      NextIgnore(L, L.top[y], y + 1, R, R + {q});
    } else {
      PriorNotIn(hid, y);
      NextRemove(L, c, y + 1, R, q);
      NextInSpec(L, c, y + 1, R);
      PrevInIs(L, c, q - 1, R, y);
      if y == u {
        NextInIs(L, c, u + 1, R, q);
      }
    }
  }


  lemma UpAt(L: Layout, hid: seq<int>, q: int, y: int)
    requires InRange(L) && IsElement(L, q) && q !in hid && 0 <= y < |L.top|
    ensures var R := Elems(hid);
            Up(L, hid + [q], y) == if y == DownOf(L, R, q) then UpOf(L, R, q) else Up(L, hid, y)
  {
    var R := Elems(hid);
    NeighboursOf(L, R, q);
    if 1 <= y <= L.n {
      UpAtHeader(L, hid, q, y);
    } else if IsElement(L, y) {
      UpAtElement(L, hid, q, y);
    }
  }

  lemma UpAtHeader(L: Layout, hid: seq<int>, q: int, y: int)
    requires InRange(L) && IsElement(L, q) && q !in hid && 1 <= y <= L.n
    ensures var R := Elems(hid);
            Up(L, hid + [q], y) == if y == DownOf(L, R, q) then UpOf(L, R, q) else Up(L, hid, y)
  {
    var R, c := Elems(hid), L.top[q];
    NeighboursOf(L, R, q);
    ElemsAppend(hid, q);
    if y != c {
      PrevIgnore(L, y, |L.top| - 1, R, R + {q});
    } else {
      PrevRemove(L, c, |L.top| - 1, R, q);
      PrevInIs(L, c, |L.top| - 1, R, q);
      PrevInSpec(L, c, |L.top| - 1, R);
    }
  }

  lemma UpAtElement(L: Layout, hid: seq<int>, q: int, y: int)
    requires InRange(L) && IsElement(L, q) && q !in hid && IsElement(L, y)
    ensures var R := Elems(hid);
            Up(L, hid + [q], y) == if y == DownOf(L, R, q) then UpOf(L, R, q) else Up(L, hid, y)
  {
    var R, c := Elems(hid), L.top[q];
    var d := DownOf(L, R, q);
    NeighboursOf(L, R, q);
    ElemsAppend(hid, q);
    PriorAppend(hid, q, y);
    if y in hid {
      assert y != d;
    } else if y == q {
      PriorNotIn(hid, q);
    } else if L.top[y] != c {
      PriorNotIn(hid, y);
      PrevIgnore(L, L.top[y], y - 1, R, R + {q});
    } else {
      PriorNotIn(hid, y);
      PrevRemove(L, c, y - 1, R, q);
      PrevInSpec(L, c, y - 1, R);
      NextInIs(L, c, q + 1, R, y);
      if y == d {
        PrevInIs(L, c, d - 1, R, q);
      }
    }
  }


  lemma LenAt(L: Layout, hid: seq<int>, q: int, y: int)
    requires InRange(L) && IsElement(L, q) && q !in hid && 0 <= y < |L.top|
    ensures Len(L, hid + [q], y) == if y == L.top[q] then Len(L, hid, y) - 1 else Len(L, hid, y)
  {
    var R, c := Elems(hid), L.top[q];
    ElemsAppend(hid, q);
    if 1 <= y <= L.n {
      CountRemove(L, y, L.n + 2, R, q);
    }
  }

  /** Removing the linked element q from its column ring: dlink[u] := d,
      ulink[d] := u and one less in its header's count turn the state rendered
      for the stack hid into the state rendered for hid + [q]. */
  lemma RemoveNode(L: Layout, hid: seq<int>, q: int)
    requires InRange(L) && IsElement(L, q) && q !in hid
    ensures var R, c := Elems(hid), L.top[q];
            var u, d := UpOf(L, R, q), DownOf(L, R, q);
            && 0 <= u < |L.top| && 0 <= d < |L.top| && 1 <= c <= L.n
            && u == Up(L, hid, q) && d == Down(L, hid, q)
            && DownSeq(L, hid + [q]) == DownSeq(L, hid)[u := d]
            && UpSeq(L, hid + [q]) == UpSeq(L, hid)[d := u]
            && LenSeq(L, hid + [q]) == LenSeq(L, hid)[c := Len(L, hid, c) - 1]
  {
    var R, c := Elems(hid), L.top[q];
    var u, d := UpOf(L, R, q), DownOf(L, R, q);
    NeighboursOf(L, R, q);
    PriorNotIn(hid, q);
    ColumnsAt(L, hid);
    ColumnsAt(L, hid + [q]);
    forall y | 0 <= y < |L.top|
      ensures DownSeq(L, hid + [q])[y] == DownSeq(L, hid)[u := d][y]
      ensures UpSeq(L, hid + [q])[y] == UpSeq(L, hid)[d := u][y]
      ensures LenSeq(L, hid + [q])[y] == LenSeq(L, hid)[c := Len(L, hid, c) - 1][y]
    {
      DownAt(L, hid, q, y);
      UpAt(L, hid, q, y);
      LenAt(L, hid, q, y);
    }
  }

  /** Re-inserting the most recently removed element q: its own links still name
      its old neighbours, and dlink[u] := q, ulink[d] := q, one more in the count
      restore the state rendered for the stack without q. */
  lemma RestoreNode(L: Layout, hid: seq<int>, q: int)
    requires InRange(L) && IsElement(L, q) && q !in hid
    ensures var R, c := Elems(hid), L.top[q];
            var u, d := Up(L, hid + [q], q), Down(L, hid + [q], q);
            && 0 <= u < |L.top| && 0 <= d < |L.top| && 1 <= c <= L.n
            && DownSeq(L, hid) == DownSeq(L, hid + [q])[u := q]
            && UpSeq(L, hid) == UpSeq(L, hid + [q])[d := q]
            && LenSeq(L, hid) == LenSeq(L, hid + [q])[c := Len(L, hid + [q], c) + 1]
  {
    var R, c := Elems(hid), L.top[q];
    var u, d := UpOf(L, R, q), DownOf(L, R, q);
    RemoveNode(L, hid, q);
    PriorAppend(hid, q, q);
    assert Up(L, hid + [q], q) == u && Down(L, hid + [q], q) == d;
    NeighboursOf(L, R, q);
    if u == c {
      NextInIs(L, c, L.n + 2, R, q);
    } else {
      NextInIs(L, c, u + 1, R, q);
    }
    if d == c {
      PrevInIs(L, c, |L.top| - 1, R, q);
    } else {
      PrevInIs(L, c, d - 1, R, q);
    }
    ColumnsAt(L, hid);
    ColumnsAt(L, hid + [q]);
    if u != c { PriorNotIn(hid, u); }
    if d != c { PriorNotIn(hid, d); }
    assert DownSeq(L, hid)[u] == q;
    assert UpSeq(L, hid)[d] == q;
    LenAt(L, hid, q, c);
    UndoUpdate(DownSeq(L, hid), DownSeq(L, hid + [q]), u, d);
    UndoUpdate(UpSeq(L, hid), UpSeq(L, hid + [q]), d, u);
    UndoUpdate(LenSeq(L, hid), LenSeq(L, hid + [q]), c, Len(L, hid, c) - 1);
  }

  /** Writing back the old entry undoes a single update. */
  lemma UndoUpdate(A: seq<int>, B: seq<int>, k: int, v: int)
    requires 0 <= k < |A| && B == A[k := v]
    ensures A == B[k := A[k]]
  {
  }

  // ---------------------------------------------------------------------------
  // Removing one header from the header ring

  lemma RNextRemove(L: Layout, s: int, C: set<int>, i: int)
    requires 1 <= s <= L.n + 1 && 1 <= i <= L.n
    ensures RNext(L, s, C + {i}) ==
            if RNext(L, s, C) == i then RNext(L, i + 1, C) else RNext(L, s, C)
    decreases L.n + 1 - s
  {
    if s <= L.n {
      if s == i {
        RNextIgnore(L, i + 1, C, C + {i});
      } else {
        RNextRemove(L, s + 1, C, i);
      }
    }
  }

  lemma RNextIgnore(L: Layout, s: int, C: set<int>, C': set<int>)
    requires 1 <= s <= L.n + 1
    requires forall t :: s <= t <= L.n ==> (t in C <==> t in C')
    ensures RNext(L, s, C) == RNext(L, s, C')
    decreases L.n + 1 - s
  {
    if s <= L.n { RNextIgnore(L, s + 1, C, C'); }
  }

  lemma LPrevRemove(L: Layout, s: int, C: set<int>, i: int)
    requires 0 <= s <= L.n && 1 <= i <= L.n
    ensures LPrev(L, s, C + {i}) ==
            if LPrev(L, s, C) == i then LPrev(L, i - 1, C) else LPrev(L, s, C)
    decreases s
  {
    if s > 0 {
      if s == i {
        LPrevIgnore(L, i - 1, C, C + {i});
      } else {
        LPrevRemove(L, s - 1, C, i);
      }
    }
  }

  lemma LPrevIgnore(L: Layout, s: int, C: set<int>, C': set<int>)
    requires 0 <= s <= L.n
    requires forall t :: 1 <= t <= s ==> (t in C <==> t in C')
    ensures LPrev(L, s, C) == LPrev(L, s, C')
    decreases s
  {
    if s > 0 { LPrevIgnore(L, s - 1, C, C'); }
  }

  predicate Headers(L: Layout, cs: seq<int>) {
    forall k :: 0 <= k < |cs| ==> 1 <= cs[k] <= L.n
  }

  lemma RLinkAt(L: Layout, cs: seq<int>, i: int, x: int)
    requires Headers(L, cs) && 1 <= i <= L.n && i !in cs && 0 <= x <= L.n
    ensures var l, r := LLink(L, cs, i), RLink(L, cs, i);
            RLink(L, cs + [i], x) == if x == l then r else RLink(L, cs, x)
  {
    var C := Elems(cs);
    var l, r := LLink(L, cs, i), RLink(L, cs, i);
    PriorNotIn(cs, i);
    PriorAppend(cs, i, x);
    ElemsAppend(cs, i);
    LPrevSpec(L, i - 1, C);
    if x in cs {
      assert x !in C ==> false;
    } else if x != i {
      PriorNotIn(cs, x);
      RNextRemove(L, x + 1, C, i);
      RNextSpec(L, x + 1, C);
      LPrevIs(L, i - 1, C, x);
      RNextIs(L, x + 1, C, i);
    }
  }

  lemma LLinkAt(L: Layout, cs: seq<int>, i: int, x: int)
    requires Headers(L, cs) && 1 <= i <= L.n && i !in cs && 0 <= x <= L.n
    ensures var l, r := LLink(L, cs, i), RLink(L, cs, i);
            LLink(L, cs + [i], x) == if x == r then l else LLink(L, cs, x)
  {
    var C := Elems(cs);
    var l, r := LLink(L, cs, i), RLink(L, cs, i);
    var s := if x == 0 then L.n else x - 1;
    PriorNotIn(cs, i);
    PriorAppend(cs, i, x);
    ElemsAppend(cs, i);
    RNextSpec(L, i + 1, C);
    if x in cs {
      assert x !in C ==> false;
    } else if x != i {
      PriorNotIn(cs, x);
      LPrevRemove(L, s, C, i);
      LPrevSpec(L, s, C);
      RNextIs(L, i + 1, C, x);
      LPrevIs(L, s, C, i);
    }
  }

  /** Removing the uncovered header i: rlink[l] := r and llink[r] := l turn the
      header ring rendered for cs into the one rendered for cs + [i], while i keeps
      its own links. */
  lemma RemoveHeader(L: Layout, cs: seq<int>, i: int)
    requires Headers(L, cs) && 1 <= i <= L.n && i !in cs
    ensures var l, r := LLink(L, cs, i), RLink(L, cs, i);
            && 0 <= l <= L.n && 0 <= r <= L.n && l != i && r != i
            && RSeq(L, cs + [i]) == RSeq(L, cs)[l := r]
            && LSeq(L, cs + [i]) == LSeq(L, cs)[r := l]
            && LLink(L, cs + [i], i) == l && RLink(L, cs + [i], i) == r
  {
    var C := Elems(cs);
    PriorNotIn(cs, i);
    LPrevSpec(L, i - 1, C);
    RNextSpec(L, i + 1, C);
    RowsAt(L, cs);
    RowsAt(L, cs + [i]);
    forall x | 0 <= x <= L.n
      ensures RSeq(L, cs + [i])[x] == RSeq(L, cs)[LLink(L, cs, i) := RLink(L, cs, i)][x]
      ensures LSeq(L, cs + [i])[x] == LSeq(L, cs)[RLink(L, cs, i) := LLink(L, cs, i)][x]
    {
      RLinkAt(L, cs, i, x);
      LLinkAt(L, cs, i, x);
    }
    RLinkAt(L, cs, i, i);
    LLinkAt(L, cs, i, i);
  }

  /** The neighbours of a header that is about to be covered point at it. */
  lemma HeaderNeighbours(L: Layout, cs: seq<int>, i: int)
    requires Headers(L, cs) && 1 <= i <= L.n && i !in cs
    ensures var l, r := LLink(L, cs, i), RLink(L, cs, i);
            && 0 <= l <= L.n && 0 <= r <= L.n
            && RSeq(L, cs)[l] == i && LSeq(L, cs)[r] == i
  {
    LeftNeighbour(L, cs, i);
    RightNeighbour(L, cs, i);
  }

  lemma LeftNeighbour(L: Layout, cs: seq<int>, i: int)
    requires Headers(L, cs) && 1 <= i <= L.n && i !in cs
    ensures var l := LLink(L, cs, i); 0 <= l <= L.n && RSeq(L, cs)[l] == i
  {
    var C := Elems(cs);
    var l := LLink(L, cs, i);
    PriorNotIn(cs, i);
    LPrevSpec(L, i - 1, C);
    PriorNotIn(cs, l);
    RNextIs(L, l + 1, C, i);
    RowAt(L, cs, l);
  }

  lemma RightNeighbour(L: Layout, cs: seq<int>, i: int)
    requires Headers(L, cs) && 1 <= i <= L.n && i !in cs
    ensures var r := RLink(L, cs, i); 0 <= r <= L.n && LSeq(L, cs)[r] == i
  {
    var C := Elems(cs);
    var r := RLink(L, cs, i);
    PriorNotIn(cs, i);
    RNextSpec(L, i + 1, C);
    PriorNotIn(cs, r);
    LPrevIs(L, if r == 0 then L.n else r - 1, C, i);
    RowAt(L, cs, r);
  }


  /** Re-inserting the most recently covered header i. */
  lemma RestoreHeader(L: Layout, cs: seq<int>, i: int)
    requires Headers(L, cs) && 1 <= i <= L.n && i !in cs
    ensures var l, r := LLink(L, cs + [i], i), RLink(L, cs + [i], i);
            && 0 <= l <= L.n && 0 <= r <= L.n
            && RSeq(L, cs) == RSeq(L, cs + [i])[l := i]
            && LSeq(L, cs) == LSeq(L, cs + [i])[r := i]
  {
    RemoveHeader(L, cs, i);
    HeaderNeighbours(L, cs, i);
  }
}
