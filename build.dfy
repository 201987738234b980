/** `init_solver`: laying an exact-cover instance out into the link vectors.

    toplen and ulink grow by one entry per node while the choices are read, as
    the source's vectors do; `prev` maps every item to the last node seen so far
    in its column (the header itself at first) and supplies each new node's ulink
    and, at the end, the headers' ulinks.  Two passes over the finished ulink
    vector then fill in dlink. */
module Building {
  import opened Layouts
  import opened Render
  import opened History
  import opened Problems

  /** A node of some column ring: an item header or an element node. */
  predicate IsNode(L: Layout, k: int) {
    1 <= k <= L.n || IsElement(L, k)
  }

  lemma NothingHidden(y: int)
    ensures Elems([]) == {} && Prior([], y) == {}
  {
  }

  // ---------------------------------------------------------------------------
  // The column rings of the freshly built arena

  /** The node below the node above a node j is j. */
  lemma UpThenDown(L: Layout, j: int)
    requires InRange(L) && 0 <= j < |L.top| && IsNode(L, j)
    ensures var u := Up(L, [], j); 0 <= u < |L.top| && IsNode(L, u) && Down(L, [], u) == j
  {
    NothingHidden(j);
    var N := |L.top|;
    if 1 <= j <= L.n {
      PrevInSpec(L, j, N - 1, {});
      var u := PrevIn(L, j, N - 1, {});
      if u == j {
        NextInIs(L, j, L.n + 2, {}, j);
      } else {
        NothingHidden(u);
        NextInIs(L, j, u + 1, {}, j);
      }
    } else {
      var c := L.top[j];
      PrevInSpec(L, c, j - 1, {});
      var u := PrevIn(L, c, j - 1, {});
      if u == c {
        NextInIs(L, c, L.n + 2, {}, j);
      } else {
        NothingHidden(u);
        NextInIs(L, c, u + 1, {}, j);
      }
    }
  }

  /** The node above the node below a node k is k. */
  lemma DownThenUp(L: Layout, k: int)
    requires InRange(L) && 0 <= k < |L.top| && IsNode(L, k)
    ensures var d := Down(L, [], k); 0 <= d < |L.top| && IsNode(L, d) && Up(L, [], d) == k
  {
    NothingHidden(k);
    var N := |L.top|;
    if 1 <= k <= L.n {
      NextInSpec(L, k, L.n + 2, {});
      var d := NextIn(L, k, L.n + 2, {});
      if d == k {
        PrevInIs(L, k, N - 1, {}, k);
      } else {
        NothingHidden(d);
        PrevInIs(L, k, d - 1, {}, k);
      }
    } else {
      var c := L.top[k];
      NextInSpec(L, c, k + 1, {});
      var d := NextIn(L, c, k + 1, {});
      if d == c {
        PrevInIs(L, c, N - 1, {}, k);
      } else {
        NothingHidden(d);
        PrevInIs(L, c, d - 1, {}, k);
      }
    }
  }

  /** Only the node above i has i below it. */
  lemma DownOnce(L: Layout, i: int)
    requires InRange(L) && 0 <= i < |L.top|
    ensures forall k :: 0 <= k < |L.top| && IsNode(L, k) && Down(L, [], k) == i ==>
              IsNode(L, i) && k == Up(L, [], i)
  {
    forall k | 0 <= k < |L.top| && IsNode(L, k) && Down(L, [], k) == i
      ensures IsNode(L, i) && k == Up(L, [], i)
    {
      DownThenUp(L, k);
    }
  }

  /** The header ring of init_solver with nothing covered: llink is [n, 0, .., n - 1]
      and rlink is [1, .., n, 0]. */
  lemma RingsAtStart(L: Layout)
    ensures LSeq(L, []) == seq(L.n + 1, k => if k == 0 then L.n else k - 1)
    ensures RSeq(L, []) == seq(L.n + 1, k => if k == L.n then 0 else k + 1)
  {
    RowsAt(L, []);
    forall x | 0 <= x <= L.n
      ensures LLink(L, [], x) == if x == 0 then L.n else x - 1
      ensures RLink(L, [], x) == if x == L.n then 0 else x + 1
    {
      NothingHidden(x);
    }
  }

  /** The header ring of init_solver, llink = [n, 0, .., n - 1] and
      rlink = [1, .., n, 0]: every item is linked, in order. */
  method HeaderRing(n: int) returns (llink: array<int>, rlink: array<int>)
    requires n >= 0
    ensures fresh(llink) && fresh(rlink) && llink != rlink
    ensures forall L: Layout :: L.n == n ==> llink[..] == LSeq(L, []) && rlink[..] == RSeq(L, [])
  {
    llink := new int[n + 1](k => if k == 0 then n else k - 1);
    rlink := new int[n + 1](k => if k == n then 0 else k + 1);
    forall L: Layout | L.n == n ensures llink[..] == LSeq(L, []) && rlink[..] == RSeq(L, []) {
      RingsAtStart(L);
    }
  }

  // ---------------------------------------------------------------------------
  // The row loop

  /** The vectors once the first count nodes of the arena L are laid out: toplen
      and ulink are final except at the headers, a header's toplen counts the
      nodes of its column so far, and prev maps each item to the last of them. */
  ghost predicate Laid(L: Layout, count: int, T: seq<int>, U: seq<int>, prev: seq<int>)
    requires Sized(L)
  {
    && L.n + 2 <= count <= |L.top| && |T| == count && |U| == count && |prev| == L.n + 1
    && (forall k :: 0 <= k < count && !(1 <= k <= L.n) ==> T[k] == LenSeq(L, [])[k] && U[k] == UpSeq(L, [])[k])
    && (forall h :: 1 <= h <= L.n ==>
          && T[h] == CountFrom(L, h, L.n + 2, {}) - CountFrom(L, h, count, {})
          && prev[h] == PrevIn(L, h, count - 1, {}))
  }

  lemma LaidStart(L: Layout, T: seq<int>, U: seq<int>, prev: seq<int>)
    requires Sized(L) && Framed(L)
    requires T == seq(L.n + 2, _ => 0) && U == seq(L.n + 2, _ => 0) && prev == seq(L.n + 1, k => k)
    ensures Laid(L, L.n + 2, T, U, prev)
  {
    ColumnAt(L, [], 0);
    ColumnAt(L, [], L.n + 1);
  }

  /** Pushing the element node count, in column val = top[count]. */
  lemma LaidElement(L: Layout, count: int, T: seq<int>, U: seq<int>, prev: seq<int>)
    requires Sized(L) && Laid(L, count, T, U, prev)
    requires count < |L.top| && 1 <= L.top[count] <= L.n
    ensures var val := L.top[count];
            Laid(L, count + 1, T[val := T[val] + 1] + [val], U + [prev[val]], prev[val := count])
  {
    var val := L.top[count];
    var T', U', prev' := T[val := T[val] + 1] + [val], U + [prev[val]], prev[val := count];
    NothingHidden(count);
    ColumnAt(L, [], count);
    assert UpSeq(L, [])[count] == PrevIn(L, val, count - 1, {});
    forall k | 0 <= k <= count && !(1 <= k <= L.n) ensures T'[k] == LenSeq(L, [])[k] && U'[k] == UpSeq(L, [])[k] {
      if k < count {
        assert T'[k] == T[k] && U'[k] == U[k];
      }
    }
    forall h | 1 <= h <= L.n
      ensures T'[h] == CountFrom(L, h, L.n + 2, {}) - CountFrom(L, h, count + 1, {})
      ensures prev'[h] == PrevIn(L, h, count, {})
    {
      assert T'[h] == T[h] + if h == val then 1 else 0;
      assert CountFrom(L, h, count, {}) == (if h == val then 1 else 0) + CountFrom(L, h, count + 1, {});
      assert PrevIn(L, h, count, {}) == if h == val then count else PrevIn(L, h, count - 1, {});
    }
  }

  /** Pushing the spacer count that closes the option which starts at first. */
  lemma LaidSpacer(L: Layout, count: int, T: seq<int>, U: seq<int>, prev: seq<int>, first: int)
    requires Sized(L) && Laid(L, count, T, U, prev)
    requires count < |L.top| && L.top[count] <= 0
    requires L.n + 2 <= first <= count && (first == L.n + 2 || L.top[first - 1] <= 0)
    requires forall t :: first <= t < count ==> L.top[t] > 0
    ensures Laid(L, count + 1, T + [L.top[count]], U + [first], prev)
  {
    var T', U' := T + [L.top[count]], U + [first];
    SpacerUp(L, count, first);
    ColumnAt(L, [], count);
    forall k | 0 <= k <= count && !(1 <= k <= L.n) ensures T'[k] == LenSeq(L, [])[k] && U'[k] == UpSeq(L, [])[k] {
      if k < count {
        assert T'[k] == T[k] && U'[k] == U[k];
      }
    }
    forall h | 1 <= h <= L.n
      ensures T'[h] == CountFrom(L, h, L.n + 2, {}) - CountFrom(L, h, count + 1, {})
      ensures prev[h] == PrevIn(L, h, count, {})
    {
      assert T'[h] == T[h];
      assert CountFrom(L, h, count, {}) == CountFrom(L, h, count + 1, {});
      assert PrevIn(L, h, count, {}) == PrevIn(L, h, count - 1, {});
    }
  }

  /** The ulink of a spacer is the first node of the option it closes, or the
      spacer itself after an empty option. */
  lemma SpacerUp(L: Layout, s: int, first: int)
    requires Sized(L) && L.n + 2 <= first <= s < |L.top| && L.top[s] <= 0
    requires first == L.n + 2 || L.top[first - 1] <= 0
    requires forall t :: first <= t < s ==> L.top[t] > 0
    ensures Up(L, [], s) == first
  {
    if first < s {
      OptStartIs(L, s - 1, first);
      assert IsElement(L, s - 1);
    } else {
      assert !IsElement(L, s - 1);
    }
  }

  /** One turn of the row loop of init_solver: every item of choice r pushes an
      element node (its toplen is the item, its ulink the last node of the item's
      column, and the item's count goes up), then the spacer closing the
      choice is pushed with toplen -(r + 1) and ulink the option's first node. */
  method LayChoice(e: ExactCover, r: int, count0: int, T0: seq<int>, U0: seq<int>, prev0: seq<int>)
    returns (count: int, T: seq<int>, U: seq<int>, prev: seq<int>)
    requires WellFormed(e) && 0 <= r < |e.choices|
    requires count0 == Start(e, r) && Laid(Arena(e), count0, T0, U0, prev0)
    ensures count == Start(e, r + 1) && Laid(Arena(e), count, T, U, prev)
  {
    ArenaRow(e, r);
    count, T, U, prev := LayRow(Arena(e), e.choices[r], r, count0, T0, U0, prev0);
  }

  /** Where a choice sits in the arena: its items from b on, then its spacer,
      after the initial spacer or the previous choice's. */
  ghost predicate ChoiceAt(L: Layout, row: seq<int>, r: int, b: int)
    requires Sized(L)
  {
    && InItems(row, L.n) && 0 <= r && L.n + 2 <= b
    && b + |row| < |L.top| && L.top[b + |row|] == -(r + 1)
    && (forall t :: b <= t < b + |row| ==> L.top[t] == row[t - b])
    && (b == L.n + 2 || L.top[b - 1] <= 0)
  }

  lemma ArenaRow(e: ExactCover, r: int)
    requires WellFormed(e) && 0 <= r < |e.choices|
    ensures ChoiceAt(Arena(e), e.choices[r], r, Start(e, r))
    ensures Start(e, r + 1) == Start(e, r) + |e.choices[r]| + 1
  {
    ArenaBlock(e, r);
    SpreadBlock(e.choices, r);
    assert InItems(e.choices[r], |e.items| - 1);
  }

  /** The same turn over the arena L, where the row's items sit from count0 on. */
  method LayRow(ghost L: Layout, row: seq<int>, r: int, count0: int, T0: seq<int>, U0: seq<int>, prev0: seq<int>)
    returns (count: int, T: seq<int>, U: seq<int>, prev: seq<int>)
    requires Sized(L) && Laid(L, count0, T0, U0, prev0) && ChoiceAt(L, row, r, count0)
    ensures count == count0 + |row| + 1 && Laid(L, count, T, U, prev)
  {
    count, T, U, prev := count0, T0, U0, prev0;
    var first_item := count;
    for c := 0 to |row|
      invariant count == first_item + c && Laid(L, count, T, U, prev)
    {
      var val := row[c];
      assert L.top[count] == val;
      LaidElement(L, count, T, U, prev);
      T := T[val := T[val] + 1] + [val];
      U := U + [prev[val]];
      prev := prev[val := count];
      count := count + 1;
    }
    LaidSpacer(L, count, T, U, prev, first_item);
    T := T + [-(r + 1)];
    U := U + [first_item];
    count := count + 1;
  }

  /** The row loop of init_solver: headers first (toplen and ulink 0, prev the
      identity), then the choices in order. */
  method LayOut(e: ExactCover) returns (T: seq<int>, U: seq<int>, prev: seq<int>)
    requires WellFormed(e)
    ensures Laid(Arena(e), |Arena(e).top|, T, U, prev)
  {
    ghost var L := Arena(e);
    ArenaFramed(e);
    var n := |e.items| - 1;
    prev := seq(n + 1, k => k);
    var count := n + 2;
    U := seq(count, _ => 0);
    T := seq(count, _ => 0);
    LaidStart(L, T, U, prev);
    assert e.choices[..0] == [];
    for r := 0 to |e.choices|
      invariant count == Start(e, r) && Laid(L, count, T, U, prev)
    {
      count, T, U, prev := LayChoice(e, r, count, T, U, prev);
    }
    assert e.choices[..|e.choices|] == e.choices;
  }

  /** The header loop of init_solver: every header's ulink becomes the last node
      of its column.  The toplen and ulink vectors are then the rendering of the
      arena with nothing hidden. */
  method CloseColumns(e: ExactCover, T: seq<int>, U0: seq<int>, prev: seq<int>) returns (U: seq<int>)
    requires WellFormed(e) && Laid(Arena(e), |Arena(e).top|, T, U0, prev)
    ensures T == LenSeq(Arena(e), []) && U == UpSeq(Arena(e), [])
  {
    var n := |e.items| - 1;
    U := U0;
    for i := 1 to n + 1
      invariant |U| == |U0|
      invariant forall k :: 0 <= k < |U| ==> U[k] == if 1 <= k < i then prev[k] else U0[k]
    {
      U := U[i := prev[i]];
    }
    LaidRendered(Arena(e), T, U0, prev, U);
  }

  lemma LaidRendered(L: Layout, T: seq<int>, U0: seq<int>, prev: seq<int>, U: seq<int>)
    requires Sized(L) && Laid(L, |L.top|, T, U0, prev) && |U| == |U0|
    requires forall k :: 0 <= k < |U| ==> U[k] == if 1 <= k <= L.n then prev[k] else U0[k]
    ensures T == LenSeq(L, []) && U == UpSeq(L, [])
  {
    NothingHidden(0);
    forall k | 0 <= k < |L.top| ensures T[k] == LenSeq(L, [])[k] && U[k] == UpSeq(L, [])[k] {
      if 1 <= k <= L.n {
        ColumnAt(L, [], k);
        assert U[k] == prev[k] == PrevIn(L, k, |L.top| - 1, {});
        assert CountFrom(L, k, |L.top|, {}) == 0;
      } else {
        assert U[k] == U0[k];
      }
    }
  }

  /** The column part of init_solver: the row loop, the header loop and the
      dlink passes give the column rings of the arena with nothing hidden. */
  method ColumnRings(e: ExactCover) returns (toplen: array<int>, ulink: array<int>, dlink: array<int>)
    requires WellFormed(e)
    ensures fresh(toplen) && fresh(ulink) && fresh(dlink)
    ensures toplen != ulink && toplen != dlink && ulink != dlink
    ensures toplen[..] == LenSeq(Arena(e), []) && ulink[..] == UpSeq(Arena(e), [])
    ensures dlink[..] == DownSeq(Arena(e), [])
  {
    var T, U, prev := LayOut(e);
    U := CloseColumns(e, T, U, prev);
    toplen := new int[|T|](k requires 0 <= k < |T| => T[k]);
    ulink := new int[|U|](k requires 0 <= k < |U| => U[k]);
    assert toplen[..] == T && ulink[..] == U;
    dlink := LinkDown(e, T, U);
  }

  // ---------------------------------------------------------------------------
  // The dlink passes

  /** The dlink of a spacer at s - 1 (or of the initial spacer): one before the
      next spacer, or the root when there is none. */
  function Gap(L: Layout, s: int): int
    requires Sized(L) && L.n + 1 <= s <= |L.top|
  {
    var w := WallFrom(L, s);
    if w == |L.top| then 0 else w - 1
  }

  /** The dlink passes of init_solver, corrected: the first pass makes every node
      of a column ring, the headers included, the dlink of its ulink, so that an
      item no choice names keeps its header as its dlink; the second pass, right
      to left, gives the root and every spacer the node before the next spacer. */
  method LinkDown(e: ExactCover, T: seq<int>, U: seq<int>) returns (D: array<int>)
    requires WellFormed(e) && T == LenSeq(Arena(e), []) && U == UpSeq(Arena(e), [])
    ensures fresh(D) && D[..] == DownSeq(Arena(e), [])
  {
    ArenaWF(e);
    D := new int[|U|](_ => 0);
    LinkColumns(Arena(e), |e.items| - 1, T, U, D);
    LinkSpacers(Arena(e), |e.items| - 1, T, D);
    ColumnsAt(Arena(e), []);
  }

  /** The first pass: the node above every column node k gets k as its dlink. */
  method LinkColumns(ghost L: Layout, n: int, T: seq<int>, U: seq<int>, D: array<int>)
    requires WF(L) && n == L.n && T == LenSeq(L, []) && U == UpSeq(L, [])
    requires D.Length == |U| && forall k :: 0 <= k < D.Length ==> D[k] == 0
    modifies D
    ensures forall k :: 0 <= k < D.Length ==> D[k] == if IsNode(L, k) then Down(L, [], k) else 0
  {
    ColumnsAt(L, []);
    forall k | 0 <= k < |U| && IsNode(L, k) ensures 0 <= Down(L, [], k) < |U| {
      DownThenUp(L, k);
    }
    for i := 0 to |U|
      invariant forall k :: 0 <= k < |U| ==>
                  D[k] == if IsNode(L, k) && Down(L, [], k) < i then Down(L, [], k) else 0
    {
      DownOnce(L, i);
      if 1 <= i <= n || T[i] > 0 {
        UpThenDown(L, i);
        D[U[i]] := i;
      }
    }
  }

  /** The second pass, right to left: the root and every spacer get the node
      before the next spacer, or the root when there is none. */
  method LinkSpacers(ghost L: Layout, n: int, T: seq<int>, D: array<int>)
    requires WF(L) && n == L.n && T == LenSeq(L, []) && D.Length == |T|
    requires forall k :: 0 <= k < D.Length ==> D[k] == if IsNode(L, k) then Down(L, [], k) else 0
    modifies D
    ensures forall k :: 0 <= k < D.Length ==> D[k] == Down(L, [], k)
  {
    var ptr := 0;
    var i := |T|;
    while i > 0
      invariant 0 <= i <= |T|
      invariant ptr == if i >= n + 1 then Gap(L, i) else if i > 0 then n else -1
      invariant forall k :: 0 <= k < |T| ==> D[k] == if IsNode(L, k) || i <= k then Down(L, [], k) else 0
    {
      i := i - 1;
      GapStep(L, i);
      ColumnAt(L, [], i);
      if T[i] <= 0 && !(1 <= i <= n) {
        D[i] := ptr;
        ptr := i - 1;
      } else {
        assert IsNode(L, i);
      }
    }
  }

  /** How the pointer of the second pass moves at node j. */
  lemma GapStep(L: Layout, j: int)
    requires Sized(L) && Framed(L) && 0 <= j < |L.top|
    ensures j >= L.n + 1 ==> Gap(L, j) == if L.top[j] <= 0 then j - 1 else Gap(L, j + 1)
    ensures j >= L.n + 1 && L.top[j] <= 0 ==> Down(L, [], j) == Gap(L, j + 1)
    ensures Gap(L, L.n + 1) == L.n && Down(L, [], 0) == L.n
  {
  }

  // ---------------------------------------------------------------------------
  // The dlink passes as the source writes them

  /** The first dlink pass as written: every node with a positive toplen becomes
      the dlink of its ulink (an empty header is skipped). */
  function FirstPassAsWritten(T: seq<int>, U: seq<int>, i: int, D: seq<int>): (r: seq<int>)
    requires |T| == |U| == |D| && 0 <= i <= |U|
    requires forall k :: 0 <= k < |U| ==> 0 <= U[k] < |U|
    ensures |r| == |D|
    decreases |U| - i
  {
    if i == |U| then D
    else FirstPassAsWritten(T, U, i + 1, if T[i] > 0 then D[U[i] := i] else D)
  }

  /** The second dlink pass as written: right to left, every node whose toplen is
      not positive, an empty header included, gets the pointer, which then becomes
      the node before it. */
  function SecondPassAsWritten(T: seq<int>, D: seq<int>, i: int, ptr: int): (r: seq<int>)
    requires |T| == |D| && 0 <= i <= |D|
    ensures |r| == |D|
    decreases i
  {
    if i == 0 then D
    else if T[i - 1] <= 0 then SecondPassAsWritten(T, D[i - 1 := ptr], i - 1, i - 2)
    else SecondPassAsWritten(T, D, i - 1, ptr)
  }

  function DownLinksAsWritten(T: seq<int>, U: seq<int>): (r: seq<int>)
    requires |T| == |U| && forall k :: 0 <= k < |U| ==> 0 <= U[k] < |U|
    ensures |r| == |U|
  {
    SecondPassAsWritten(T, FirstPassAsWritten(T, U, 0, seq(|U|, _ => 0)), |T|, 0)
  }

  /** The first pass as written makes the corrected pass's writes wherever no
      header has toplen 0: a node with toplen > 0 is then exactly a column node. */
  lemma {:induction false} FirstPassAgrees(L: Layout, T: seq<int>, U: seq<int>, i: int, D: seq<int>)
    requires WF(L) && T == LenSeq(L, []) && U == UpSeq(L, [])
    requires forall h :: 1 <= h <= L.n ==> T[h] > 0
    requires forall k :: 0 <= k < |U| ==> 0 <= U[k] < |U|
    requires |D| == |U| && 0 <= i <= |U|
    requires forall k :: 0 <= k < |U| ==>
               D[k] == if IsNode(L, k) && Down(L, [], k) < i then Down(L, [], k) else 0
    ensures forall k :: 0 <= k < |U| ==>
              FirstPassAsWritten(T, U, i, D)[k] == if IsNode(L, k) then Down(L, [], k) else 0
    decreases |U| - i
  {
    if i < |U| {
      ColumnAt(L, [], i);
      DownOnce(L, i);
      if T[i] > 0 {
        assert IsNode(L, i);
        UpThenDown(L, i);
        var D' := D[U[i] := i];
        assert forall k :: 0 <= k < |U| ==>
                 D'[k] == if IsNode(L, k) && Down(L, [], k) < i + 1 then Down(L, [], k) else 0;
        FirstPassAgrees(L, T, U, i + 1, D');
      } else {
        assert !IsNode(L, i);
        assert forall k :: 0 <= k < |U| ==>
                 D[k] == if IsNode(L, k) && Down(L, [], k) < i + 1 then Down(L, [], k) else 0;
        FirstPassAgrees(L, T, U, i + 1, D);
      }
    } else {
      forall k | 0 <= k < |U| && IsNode(L, k) ensures Down(L, [], k) < |U| {
        DownThenUp(L, k);
      }
    }
  }

  /** The second pass as written gives the root and the spacers their rendered
      dlink and keeps the column nodes' entries, wherever no header has toplen 0. */
  lemma {:induction false} SecondPassAgrees(L: Layout, T: seq<int>, D: seq<int>, i: int, ptr: int)
    requires WF(L) && T == LenSeq(L, []) && |D| == |T| && 0 <= i <= |T|
    requires forall h :: 1 <= h <= L.n ==> T[h] > 0
    requires ptr == if i >= L.n + 1 then Gap(L, i) else if i > 0 then L.n else -1
    requires forall k :: 0 <= k < |T| ==> D[k] == if IsNode(L, k) || i <= k then Down(L, [], k) else 0
    ensures SecondPassAsWritten(T, D, i, ptr) == DownSeq(L, [])
    decreases i
  {
    if i > 0 {
      GapStep(L, i - 1);
      ColumnAt(L, [], i - 1);
      if T[i - 1] <= 0 {
        SecondPassAgrees(L, T, D[i - 1 := ptr], i - 1, i - 2);
      } else {
        SecondPassAgrees(L, T, D, i - 1, ptr);
      }
    } else {
      ColumnsAt(L, []);
    }
  }

  /** The passes as written are right whenever no column is empty: then they give
      exactly the rendered dlink vector. */
  lemma DownLinksAgree(L: Layout)
    requires WF(L) && forall h :: 1 <= h <= L.n ==> LenSeq(L, [])[h] > 0
    ensures forall k :: 0 <= k < |L.top| ==> 0 <= UpSeq(L, [])[k] < |L.top|
    ensures DownLinksAsWritten(LenSeq(L, []), UpSeq(L, [])) == DownSeq(L, [])
  {
    var T, U := LenSeq(L, []), UpSeq(L, []);
    forall k | 0 <= k < |U| ensures 0 <= U[k] < |U| {
      ColumnAt(L, [], k);
      if IsNode(L, k) {
        UpThenDown(L, k);
      }
    }
    forall k | 0 <= k < |U| && IsNode(L, k) ensures Down(L, [], k) >= 0 {
      DownThenUp(L, k);
    }
    FirstPassAgrees(L, T, U, 0, seq(|U|, _ => 0));
    GapStep(L, 0);
    SecondPassAgrees(L, T, FirstPassAsWritten(T, U, 0, seq(|U|, _ => 0)), |T|, 0);
  }

  /** A node of column c at or after s makes c's count from s positive. */
  lemma {:induction false} CountHas(L: Layout, c: int, s: int, t: int)
    requires Sized(L) && L.n + 2 <= s <= t < |L.top| && L.top[t] == c
    ensures CountFrom(L, c, s, {}) > 0
    decreases t - s
  {
    if s < t {
      CountHas(L, c, s + 1, t);
    }
  }

  /** Item c is named by some choice. */
  predicate Occurs(e: ExactCover, c: int) {
    exists r :: 0 <= r < |e.choices| && c in e.choices[r]
  }

  /** For an instance in which every item occurs in some choice, init_solver's
      dlink passes as written build the rendered dlink vector. */
  lemma PassesAsWrittenAgree(e: ExactCover)
    requires WellFormed(e)
    requires forall c :: 1 <= c < |e.items| ==> Occurs(e, c)
    ensures forall k :: 0 <= k < |Arena(e).top| ==> 0 <= UpSeq(Arena(e), [])[k] < |Arena(e).top|
    ensures DownLinksAsWritten(LenSeq(Arena(e), []), UpSeq(Arena(e), [])) == DownSeq(Arena(e), [])
  {
    var L := Arena(e);
    ArenaWF(e);
    forall h | 1 <= h <= L.n ensures LenSeq(L, [])[h] > 0 {
      assert Occurs(e, h);
      var r :| 0 <= r < |e.choices| && h in e.choices[r];
      var j :| 0 <= j < |e.choices[r]| && e.choices[r][j] == h;
      ArenaElements(e, r);
      assert L.top[Start(e, r) + j] == h;
      CountHas(L, h, L.n + 2, Start(e, r) + j);
      ColumnAt(L, [], h);
      NothingHidden(0);
    }
    DownLinksAgree(L);
  }

  /** Items a and b, one choice {b}: the passes as written give header a the
      dlink 2 (header b) where its empty column calls for 1 (itself), so that
      cover(a), the first step of the search, walks off into column b. */
  lemma EmptyColumnAsWritten()
    ensures var e := ExactCover(["", "a", "b"], [[2]]);
            var L := Arena(e);
            && WellFormed(e)
            && LenSeq(L, []) == [0, 0, 1, 0, 2, -1] && UpSeq(L, []) == [0, 1, 4, 0, 2, 4]
            && DownLinksAsWritten(LenSeq(L, []), UpSeq(L, [])) == [0, 2, 4, 4, 2, 0]
            && DownSeq(L, []) == [2, 1, 4, 4, 2, 0]
  {
    var e := ExactCover(["", "a", "b"], [[2]]);
    TinyArena(e);
    TinyRender(Arena(e));
    TinyPasses([0, 0, 1, 0, 2, -1], [0, 1, 4, 0, 2, 4]);
  }

  lemma TinyArena(e: ExactCover)
    requires e == ExactCover(["", "a", "b"], [[2]])
    ensures WellFormed(e) && Arena(e) == Layout(2, [0, 0, 0, 0, 2, -1])
  {
    assert e.choices[..0] == [];
    assert Spread(e.choices) == [2, -1];
    assert InItems(e.choices[0], 2);
  }

  lemma TinyRender(L: Layout)
    requires L == Layout(2, [0, 0, 0, 0, 2, -1])
    ensures LenSeq(L, []) == [0, 0, 1, 0, 2, -1] && UpSeq(L, []) == [0, 1, 4, 0, 2, 4]
    ensures DownSeq(L, []) == [2, 1, 4, 4, 2, 0]
  {
    ColumnsAt(L, []);
    NothingHidden(0);
    assert !Live(L, 1, 4, {}) && !Live(L, 1, 5, {}) && Live(L, 2, 4, {}) && !Live(L, 2, 5, {});
    assert CountFrom(L, 1, 4, {}) == 0 && CountFrom(L, 2, 4, {}) == 1;
    assert PrevIn(L, 1, 5, {}) == 1 && PrevIn(L, 2, 5, {}) == 4;
    assert NextIn(L, 1, 4, {}) == 1 && NextIn(L, 2, 4, {}) == 4;
    assert Up(L, [], 4) == 2 && Down(L, [], 4) == 2;
    assert Up(L, [], 5) == 4 && Down(L, [], 5) == 0 && Down(L, [], 3) == 4;
  }

  lemma TinyPasses(T: seq<int>, U: seq<int>)
    requires T == [0, 0, 1, 0, 2, -1] && U == [0, 1, 4, 0, 2, 4]
    ensures DownLinksAsWritten(T, U) == [0, 2, 4, 4, 2, 0]
  {
    var Z, D1, D := [0, 0, 0, 0, 0, 0], [0, 0, 0, 0, 2, 0], [0, 0, 4, 0, 2, 0];
    assert Z[4 := 2] == D1 && D1[2 := 4] == D;
    assert FirstPassAsWritten(T, U, 5, D) == D;
    assert FirstPassAsWritten(T, U, 3, D1) == FirstPassAsWritten(T, U, 4, D1) == D;
    assert FirstPassAsWritten(T, U, 1, Z) == FirstPassAsWritten(T, U, 2, Z) == D;
    assert seq(6, _ => 0) == Z;
    assert FirstPassAsWritten(T, U, 0, Z) == D;
    var S1, S2, F := [0, 0, 4, 4, 2, 0], [0, 2, 4, 4, 2, 0], [0, 2, 4, 4, 2, 0];
    assert D[5 := 0] == D && D[3 := 4] == S1 && S1[1 := 2] == S2 && S2[0 := 0] == F;
    assert SecondPassAsWritten(T, F, 0, -1) == F;
    assert SecondPassAsWritten(T, S2, 1, 0) == F;
    assert SecondPassAsWritten(T, S1, 3, 2) == SecondPassAsWritten(T, S1, 2, 2) == F;
    assert SecondPassAsWritten(T, D, 5, 4) == SecondPassAsWritten(T, D, 4, 4) == F;
    assert SecondPassAsWritten(T, D, 6, 0) == F;
  }
}
