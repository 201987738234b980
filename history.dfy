/** Which nodes `hide` and `cover` remove, and in which order.

    `hide(p)` walks the other nodes of p's option forwards, wrapping from the
    closing spacer to the option's first node; `cover(i)` hides the option of every
    node still in column i, top to bottom.  Folding that over the stack of covered
    items gives the stack of hidden nodes, so the whole link state is a function of
    the covered items alone. */
module History {
  import opened Layouts
  import opened Render

  /** The indices a, a+1, ..., b-1. */
  function Run(a: int, b: int): (r: seq<int>)
    requires a <= b
    ensures |r| == b - a
    ensures forall k :: 0 <= k < b - a ==> r[k] == a + k
  {
    seq(b - a, k requires 0 <= k < b - a => a + k)
  }

  /** Cursor positions of the `hide(p)` / `unhide(p)` walks. */
  predicate Cursor(L: Layout, p: int, q: int)
    requires Sized(L) && IsElement(L, p)
  {
    p < q <= OptEnd(L, p) || OptStart(L, p) <= q <= p
  }

  /** The nodes `hide(p)` has removed when its cursor has reached q. */
  function Pushed(L: Layout, p: int, q: int): seq<int>
    requires Sized(L) && IsElement(L, p) && Cursor(L, p, q)
  {
    if p < q then Run(p + 1, q)
    else Run(p + 1, OptEnd(L, p)) + Run(OptStart(L, p), q)
  }

  /** Everything `hide(p)` removes, in order. */
  function HideSeq(L: Layout, p: int): seq<int>
    requires Sized(L) && IsElement(L, p)
  {
    Pushed(L, p, p)
  }

  /** The nodes `cover(i)` removes while its cursor walks column i from node a
      up to node b (exclusive), given the hidden stack H it started from. */
  function CoverRange(L: Layout, i: int, a: int, b: int, H: seq<int>): seq<int>
    requires Sized(L) && 1 <= i <= L.n && L.n + 2 <= a <= b <= |L.top|
    decreases b - a
  {
    if a == b then []
    else CoverRange(L, i, a, b - 1, H)
         + (if Live(L, i, b - 1, Elems(H)) then HideSeq(L, b - 1) else [])
  }

  /** Everything `cover(i)` removes from the vertical rings, in order. */
  function CoverPushes(L: Layout, i: int, H: seq<int>): seq<int>
    requires Sized(L) && 1 <= i <= L.n
  {
    CoverRange(L, i, L.n + 2, |L.top|, H)
  }

  /** The hidden stack after covering the items of cs in order, from the built arena. */
  function HiddenOf(L: Layout, cs: seq<int>): seq<int>
    requires Sized(L)
  {
    HiddenUpTo(L, cs, |cs|)
  }

  /** The hidden stack after covering the first k items of cs. */
  function HiddenUpTo(L: Layout, cs: seq<int>, k: int): seq<int>
    requires Sized(L) && 0 <= k <= |cs|
    decreases k
  {
    if k == 0 then []
    else
      var H := HiddenUpTo(L, cs, k - 1);
      H + (if 1 <= cs[k - 1] <= L.n then CoverPushes(L, cs[k - 1], H) else [])
  }

  /** Covering more items later does not change what the first k covered. */
  lemma {:induction false} HiddenUpToAppend(L: Layout, cs: seq<int>, i: int, k: int)
    requires Sized(L) && 0 <= k <= |cs|
    ensures HiddenUpTo(L, cs + [i], k) == HiddenUpTo(L, cs, k)
    decreases k
  {
    if k > 0 {
      HiddenUpToAppend(L, cs, i, k - 1);
      assert (cs + [i])[k - 1] == cs[k - 1];
    }
  }

  predicate Distinct(s: seq<int>) {
    forall j, k {:trigger Apart(s, j, k)} :: 0 <= j < k < |s| ==> Apart(s, j, k)
  }

  /** Entries j < k of s differ (when both exist). */
  predicate Apart(s: seq<int>, j: int, k: int) {
    0 <= j < k < |s| ==> s[j] != s[k]
  }

  lemma DistinctAt(s: seq<int>, j: int, k: int)
    requires Distinct(s) && 0 <= j < k < |s|
    ensures s[j] != s[k]
  {
    assert Apart(s, j, k);
  }

  lemma DistinctPush(s: seq<int>, v: int)
    requires Distinct(s) && v !in s
    ensures Distinct(s + [v])
  {
    forall j, k ensures Apart(s + [v], j, k) {
      if 0 <= j < k < |s| {
        assert Apart(s, j, k);
      }
    }
  }

  lemma DistinctPop(s: seq<int>, v: int)
    requires Distinct(s + [v])
    ensures Distinct(s) && v !in s
  {
    forall j, k ensures Apart(s, j, k) {
      assert Apart(s + [v], j, k);
    }
    forall j | 0 <= j < |s| ensures s[j] != v {
      assert Apart(s + [v], j, |s|);
    }
  }

  /** Node y's option is untouched: none of its nodes is hidden and none of its
      items is covered. */
  ghost predicate OptionFree(L: Layout, y: int, cs: seq<int>, H: seq<int>)
    requires Sized(L) && IsElement(L, y)
  {
    forall z :: OptStart(L, y) <= z < OptEnd(L, y) ==> z !in H && L.top[z] !in cs
  }

  /** A node that is still linked in a column that is not covered belongs to an
      option none of whose nodes is hidden and none of whose items is covered. */
  ghost predicate Closed(L: Layout, cs: seq<int>, H: seq<int>)
    requires Sized(L)
  {
    forall y :: IsElement(L, y) && y !in H && L.top[y] !in cs ==> OptionFree(L, y, cs, H)
  }

  // ---------------------------------------------------------------------------
  // The hide walk

  lemma PushedIn(L: Layout, p: int, q: int, y: int)
    requires Sized(L) && IsElement(L, p) && Cursor(L, p, q)
    ensures y in Pushed(L, p, q) <==>
            if p < q then p < y < q else p < y < OptEnd(L, p) || OptStart(L, p) <= y < q
  {
    if p < q {
      if y in Pushed(L, p, q) {
        var k :| 0 <= k < |Pushed(L, p, q)| && Pushed(L, p, q)[k] == y;
      }
      if p < y < q {
        assert Pushed(L, p, q)[y - p - 1] == y;
      }
    } else {
      var A, B := Run(p + 1, OptEnd(L, p)), Run(OptStart(L, p), q);
      assert Pushed(L, p, q) == A + B;
      if y in A + B {
        assert y in A || y in B;
        if y in A {
          var k :| 0 <= k < |A| && A[k] == y;
        } else {
          var k :| 0 <= k < |B| && B[k] == y;
        }
      }
      if p < y < OptEnd(L, p) {
        assert A[y - p - 1] == y;
      }
      if OptStart(L, p) <= y < q {
        assert B[y - OptStart(L, p)] == y;
      }
    }
  }

  /** The other nodes of p's option are exactly what `hide(p)` removes. */
  lemma HideSeqIn(L: Layout, p: int, y: int)
    requires Sized(L) && IsElement(L, p)
    ensures y in HideSeq(L, p) <==> OptStart(L, p) <= y < OptEnd(L, p) && y != p
  {
    PushedIn(L, p, p, y);
  }

  lemma PushedStep(L: Layout, p: int, q: int)
    requires Sized(L) && IsElement(L, p)
    requires p < q < OptEnd(L, p) || OptStart(L, p) <= q < p
    ensures Cursor(L, p, q) && Cursor(L, p, q + 1)
    ensures Pushed(L, p, q + 1) == Pushed(L, p, q) + [q]
  {
    if p < q {
      RunPush(p + 1, q);
    } else {
      var b := OptStart(L, p);
      RunPush(b, q);
      AppendAssoc(Run(p + 1, OptEnd(L, p)), Run(b, q), [q]);
    }
  }

  lemma RunPush(a: int, b: int)
    requires a <= b
    ensures Run(a, b + 1) == Run(a, b) + [b]
  {
  }

  lemma PushedWrap(L: Layout, p: int)
    requires Sized(L) && IsElement(L, p)
    ensures Cursor(L, p, OptEnd(L, p)) && Cursor(L, p, OptStart(L, p))
    ensures Pushed(L, p, OptEnd(L, p)) == Pushed(L, p, OptStart(L, p))
  {
    assert Run(OptStart(L, p), OptStart(L, p)) == [];
  }

  lemma PushedStart(L: Layout, p: int)
    requires Sized(L) && IsElement(L, p)
    ensures Cursor(L, p, p + 1) && Pushed(L, p, p + 1) == []
  {
  }

  /** One step of the `hide(p)` walk at cursor q: a spacer is the option's end
      and the walk wraps; an element is pushed next. */
  lemma HideStep(L: Layout, p: int, q: int)
    requires InRange(L) && Framed(L) && IsElement(L, p) && Cursor(L, p, q) && q != p
    ensures L.top[q] <= 0 ==>
              q == OptEnd(L, p) && Cursor(L, p, OptStart(L, p))
              && Pushed(L, p, OptStart(L, p)) == Pushed(L, p, q)
    ensures L.top[q] > 0 ==>
              IsElement(L, q) && Cursor(L, p, q + 1)
              && Pushed(L, p, q + 1) == Pushed(L, p, q) + [q]
              && q !in Pushed(L, p, q) && q in HideSeq(L, p)
  {
    InOption(L, p);
    PushedWrap(L, p);
    PushedIn(L, p, q, q);
    HideSeqIn(L, p, q);
    if L.top[q] > 0 {
      PushedStep(L, p, q);
    }
  }

  /** One step of the `unhide(p)` walk at cursor q (everything from q + 1 on is
      still to be relinked): a spacer is the option's start and the walk wraps to
      its last node; an element is the most recently pushed node. */
  lemma UnhideStep(L: Layout, p: int, q: int)
    requires InRange(L) && Framed(L) && IsElement(L, p) && Cursor(L, p, q + 1) && q != p
    requires OptStart(L, p) - 1 <= q
    ensures L.top[q] <= 0 ==>
              q == OptStart(L, p) - 1 && Cursor(L, p, OptEnd(L, p))
              && Pushed(L, p, OptEnd(L, p)) == Pushed(L, p, q + 1)
    ensures L.top[q] > 0 ==>
              IsElement(L, q) && Cursor(L, p, q)
              && Pushed(L, p, q + 1) == Pushed(L, p, q) + [q]
              && q !in Pushed(L, p, q) && q in HideSeq(L, p)
  {
    InOption(L, p);
    PushedWrap(L, p);
    if L.top[q] > 0 {
      PushedStep(L, p, q);
      PushedIn(L, p, q, q);
      HideSeqIn(L, p, q);
    }
  }

  /** Two distinct nodes of one option lie in different columns. */
  lemma DistinctColumns(L: Layout, y: int, z: int)
    requires Sized(L) && DistinctItems(L) && IsElement(L, y) && OptStart(L, y) <= z < OptEnd(L, y) && z != y
    ensures L.top[z] != L.top[y]
  {
    SameOption(L, y, z);
    if z < y {
      assert y < WallFrom(L, z);
      assert ItemsApart(L, z, y);
    } else {
      assert z < WallFrom(L, y);
      assert ItemsApart(L, y, z);
    }
  }

  // ---------------------------------------------------------------------------
  // The cover walk

  /** Whatever `cover(i)` removes between a and b comes from the option of a
      node of column i there that was still linked. */
  lemma {:induction false} CoverRangeOrigin(L: Layout, i: int, a: int, b: int, H: seq<int>, y: int) returns (z: int)
    requires Sized(L) && 1 <= i <= L.n && L.n + 2 <= a <= b <= |L.top|
    requires y in CoverRange(L, i, a, b, H)
    ensures a <= z < b && Live(L, i, z, Elems(H)) && y in HideSeq(L, z)
    decreases b - a
  {
    if y in CoverRange(L, i, a, b - 1, H) {
      z := CoverRangeOrigin(L, i, a, b - 1, H, y);
    } else {
      z := b - 1;
    }
  }

  lemma CoverRangeHas(L: Layout, i: int, a: int, b: int, H: seq<int>, z: int, y: int)
    requires Sized(L) && 1 <= i <= L.n && L.n + 2 <= a <= z < b <= |L.top|
    requires Live(L, i, z, Elems(H)) && y in HideSeq(L, z)
    ensures y in CoverRange(L, i, a, b, H)
    decreases b - a
  {
    if z < b - 1 {
      CoverRangeHas(L, i, a, b - 1, H, z, y);
    }
  }

  /** Column i keeps all its nodes while `cover(i)` runs. */
  lemma CoverRangeColumns(L: Layout, i: int, a: int, b: int, H: seq<int>, y: int)
    requires Sized(L) && DistinctItems(L) && 1 <= i <= L.n && L.n + 2 <= a <= b <= |L.top|
    requires y in CoverRange(L, i, a, b, H)
    ensures IsElement(L, y) && L.top[y] != i
  {
    var z := CoverRangeOrigin(L, i, a, b, H, y);
    HideSeqIn(L, z, y);
    SameOption(L, z, y);
    DistinctColumns(L, z, y);
  }

  lemma ColumnKept(L: Layout, i: int, a: int, b: int, H: seq<int>, t: int)
    requires Sized(L) && DistinctItems(L) && 1 <= i <= L.n && L.n + 2 <= a <= b <= |L.top|
    ensures 0 <= t < |L.top| && L.top[t] == i ==> t !in CoverRange(L, i, a, b, H)
  {
    if t in CoverRange(L, i, a, b, H) {
      CoverRangeColumns(L, i, a, b, H, t);
    }
  }

  /** A node that `cover(i)` removes lies outside column i, in an option that had
      a node linked in column i. */
  lemma CoverPushesOrigin(L: Layout, i: int, H: seq<int>, y: int) returns (z: int)
    requires Sized(L) && DistinctItems(L) && 1 <= i <= L.n
    requires y in CoverPushes(L, i, H)
    ensures IsElement(L, y) && L.top[y] != i
    ensures OptStart(L, y) <= z < OptEnd(L, y) && Live(L, i, z, Elems(H))
  {
    z := CoverRangeOrigin(L, i, L.n + 2, |L.top|, H, y);
    HideSeqIn(L, z, y);
    SameOption(L, z, y);
    DistinctColumns(L, z, y);
  }

  /** `cover(i)` removes every node outside column i whose option has a node
      linked in column i. */
  lemma CoverPushesHas(L: Layout, i: int, H: seq<int>, y: int, z: int)
    requires Sized(L) && 1 <= i <= L.n && IsElement(L, y)
    requires OptStart(L, y) <= z < OptEnd(L, y) && Live(L, i, z, Elems(H)) && L.top[y] != i
    ensures y in CoverPushes(L, i, H)
  {
    SameOption(L, y, z);
    CoverPushesHasFrom(L, i, H, z, y);
  }

  lemma CoverPushesHasFrom(L: Layout, i: int, H: seq<int>, z: int, y: int)
    requires Sized(L) && 1 <= i <= L.n && IsElement(L, z) && Live(L, i, z, Elems(H))
    requires OptStart(L, z) <= y < OptEnd(L, z) && y != z
    ensures y in CoverPushes(L, i, H)
  {
    HideSeqIn(L, z, y);
    CoverRangeHas(L, i, L.n + 2, |L.top|, H, z, y);
  }

  lemma CoverPushesReach(L: Layout, i: int, H: seq<int>, y: int, z: int)
    requires Sized(L) && 1 <= i <= L.n && IsElement(L, y)
    ensures OptStart(L, y) <= z < OptEnd(L, y) && Live(L, i, z, Elems(H)) && L.top[y] != i
            ==> y in CoverPushes(L, i, H)
  {
    if OptStart(L, y) <= z < OptEnd(L, y) && Live(L, i, z, Elems(H)) && L.top[y] != i {
      CoverPushesHas(L, i, H, y, z);
    }
  }

  /** Moving the cursor of `cover(i)` from s to the next linked node of column i
      skips nothing that `cover(i)` would hide. */
  lemma CoverRangeSkip(L: Layout, i: int, s: int, H: seq<int>)
    requires Sized(L) && 1 <= i <= L.n && L.n + 2 <= s <= |L.top|
    ensures var t := NextIn(L, i, s, Elems(H));
            (t == i || s <= t < |L.top|) &&
            CoverRange(L, i, L.n + 2, if t == i then |L.top| else t, H) == CoverRange(L, i, L.n + 2, s, H)
    decreases |L.top| - s
  {
    if s < |L.top| && !Live(L, i, s, Elems(H)) {
      CoverRangeSkip(L, i, s + 1, H);
    }
  }

  /** The same, for the bottom-up walk of `uncover(i)`, whose cursor at t stands for
      the range below t + 1. */
  lemma CoverRangeSkipDown(L: Layout, i: int, s: int, H: seq<int>)
    requires Sized(L) && 1 <= i <= L.n && L.n + 1 <= s < |L.top|
    ensures var t := PrevIn(L, i, s, Elems(H));
            (t == i || L.n + 2 <= t <= s) &&
            CoverRange(L, i, L.n + 2, if t == i then L.n + 2 else t + 1, H) == CoverRange(L, i, L.n + 2, s + 1, H)
    decreases s
  {
    if s > L.n + 1 && !Live(L, i, s, Elems(H)) {
      CoverRangeSkipDown(L, i, s - 1, H);
      assert CoverRange(L, i, L.n + 2, s + 1, H) == CoverRange(L, i, L.n + 2, s, H) + [];
    }
  }

  /** When `cover` reaches node p of column i, no node of p's option has been
      hidden yet by this cover. */
  lemma CoverRangeMissesOption(L: Layout, i: int, p: int, H: seq<int>)
    requires Sized(L) && DistinctItems(L) && 1 <= i <= L.n && IsElement(L, p) && L.top[p] == i
    ensures forall y :: y in HideSeq(L, p) ==> y !in CoverRange(L, i, L.n + 2, p, H)
  {
    forall y | y in HideSeq(L, p) ensures y !in CoverRange(L, i, L.n + 2, p, H) {
      CoverRangeMisses(L, i, p, H, y);
    }
  }

  lemma CoverRangeMisses(L: Layout, i: int, p: int, H: seq<int>, y: int)
    requires Sized(L) && DistinctItems(L) && 1 <= i <= L.n && IsElement(L, p) && L.top[p] == i
    requires y in HideSeq(L, p)
    ensures y !in CoverRange(L, i, L.n + 2, p, H)
  {
    if y in CoverRange(L, i, L.n + 2, p, H) {
      var z := CoverRangeOrigin(L, i, L.n + 2, p, H, y);
      HideSeqIn(L, p, y);
      SameOption(L, p, y);
      HideSeqIn(L, z, y);
      SameOption(L, z, y);
      DistinctColumns(L, p, z);
      assert false;
    }
  }


  /** When `cover(i)` reaches a node p of column i that is still linked, none of
      the nodes `hide(p)` will remove has been removed yet. */
  lemma CoverStepFresh(L: Layout, cs: seq<int>, H: seq<int>, i: int, p: int, hid: seq<int>)
    requires Sized(L) && DistinctItems(L) && Headers(L, cs) && Distinct(cs) && H == HiddenOf(L, cs)
    requires 1 <= i <= L.n && i !in cs
    requires IsElement(L, p) && L.top[p] == i && p !in H
    requires hid == H + CoverRange(L, i, L.n + 2, p, H)
    ensures forall y :: y in HideSeq(L, p) ==> y !in hid
  {
    HiddenOfClosed(L, cs);
    assert OptionFree(L, p, cs, H);
    CoverRangeMissesOption(L, i, p, H);
    forall y | y in HideSeq(L, p) ensures y !in H {
      HideSeqIn(L, p, y);
    }
  }

  /** Whatever `cover(i)` has removed so far lies outside column i. */
  lemma ColumnUntouched(L: Layout, i: int, H: seq<int>, b: int)
    requires Sized(L) && DistinctItems(L) && 1 <= i <= L.n && L.n + 2 <= b <= |L.top|
    ensures forall t :: 0 <= t < |L.top| && L.top[t] == i ==>
              (t in Elems(H + CoverRange(L, i, L.n + 2, b, H)) <==> t in Elems(H))
  {
    forall t | 0 <= t < |L.top| && L.top[t] == i
      ensures t in Elems(H + CoverRange(L, i, L.n + 2, b, H)) <==> t in Elems(H)
    {
      ColumnKept(L, i, L.n + 2, b, H, t);
    }
  }

  /** Scans of column i do not see what `cover(i)` has removed so far. */
  lemma NextAfterCover(L: Layout, i: int, H: seq<int>, b: int, s: int)
    requires Sized(L) && DistinctItems(L) && 1 <= i <= L.n && L.n + 2 <= b <= |L.top|
    requires L.n + 2 <= s <= |L.top|
    ensures NextIn(L, i, s, Elems(H + CoverRange(L, i, L.n + 2, b, H))) == NextIn(L, i, s, Elems(H))
  {
    ColumnUntouched(L, i, H, b);
    NextIgnore(L, i, s, Elems(H + CoverRange(L, i, L.n + 2, b, H)), Elems(H));
  }

  lemma PrevAfterCover(L: Layout, i: int, H: seq<int>, b: int, s: int)
    requires Sized(L) && DistinctItems(L) && 1 <= i <= L.n && L.n + 2 <= b <= |L.top|
    requires L.n + 1 <= s < |L.top|
    ensures PrevIn(L, i, s, Elems(H + CoverRange(L, i, L.n + 2, b, H))) == PrevIn(L, i, s, Elems(H))
  {
    ColumnUntouched(L, i, H, b);
    PrevIgnore(L, i, s, Elems(H + CoverRange(L, i, L.n + 2, b, H)), Elems(H));
  }

  /** `hide(p)` reaching the spacer after p's option jumps to the option's first node. */
  lemma HideWrap(L: Layout, hid: seq<int>, p: int)
    requires InRange(L) && Framed(L) && IsElement(L, p)
    ensures p < OptEnd(L, p) < |L.top| && L.top[OptEnd(L, p)] <= 0
    ensures Up(L, hid, OptEnd(L, p)) == OptStart(L, p)
  {
    var q := OptEnd(L, p);
    SameOption(L, p, q - 1);
  }

  /** `unhide(p)` reaching the spacer before p's option jumps to the option's last node. */
  lemma UnhideWrap(L: Layout, hid: seq<int>, p: int)
    requires InRange(L) && Framed(L) && IsElement(L, p)
    ensures var q := OptStart(L, p) - 1;
            L.n + 1 <= q < p && L.top[q] <= 0 && Down(L, hid, q) == OptEnd(L, p) - 1
  {
    var b := OptStart(L, p);
    SameOption(L, p, b);
    InOption(L, p);
    assert OptEnd(L, b) == OptEnd(L, p);
  }

  /** The state of `cover(i)` with cursor p, started from the hidden stack H0:
      p is the header or a node still linked in column i, and everything above p
      in column i has had its option hidden. */
  ghost predicate CoverAt(L: Layout, i: int, H0: seq<int>, p: int, hid: seq<int>)
    requires Sized(L) && 1 <= i <= L.n
  {
    && (p == i || (L.n + 2 <= p < |L.top| && Live(L, i, p, Elems(H0))))
    && hid == H0 + CoverRange(L, i, L.n + 2, if p == i then |L.top| else p, H0)
  }

  lemma CoverStart(L: Layout, i: int, H0: seq<int>)
    requires Sized(L) && 1 <= i <= L.n
    ensures CoverAt(L, i, H0, Down(L, H0, i), H0)
  {
    NextInSpec(L, i, L.n + 2, Elems(H0));
    CoverRangeSkip(L, i, L.n + 2, H0);
  }

  /** After `hide(p)`, following p's dlink moves the cursor of `cover(i)` down. */
  lemma CoverNext(L: Layout, i: int, H0: seq<int>, p: int, hid: seq<int>)
    requires Sized(L) && DistinctItems(L) && 1 <= i <= L.n
    requires CoverAt(L, i, H0, p, hid) && p != i
    ensures IsElement(L, p) && L.top[p] == i && p !in H0
    ensures hid == H0 + CoverRange(L, i, L.n + 2, p, H0)
    ensures var t := Down(L, hid + HideSeq(L, p), p);
            (t == i || p < t) && CoverAt(L, i, H0, t, hid + HideSeq(L, p))
  {
    var P := CoverRange(L, i, L.n + 2, p, H0);
    var hid' := hid + HideSeq(L, p);
    CoverRangeLast(L, i, p, H0);
    ColumnKept(L, i, L.n + 2, p + 1, H0, p);
    PriorNotIn(hid', p);
    NextAfterCover(L, i, H0, p + 1, p + 1);
    NextInSpec(L, i, p + 1, Elems(H0));
    CoverRangeSkip(L, i, p + 1, H0);
  }

  /** One turn of the loop of `cover(i)` at cursor p: `hide(p)` may run, and
      following p's dlink afterwards moves the cursor down. */
  lemma CoverLoopStep(L: Layout, cs: seq<int>, H0: seq<int>, i: int, p: int, hid: seq<int>)
    requires Sized(L) && DistinctItems(L) && Headers(L, cs) && Distinct(cs) && H0 == HiddenOf(L, cs)
    requires 1 <= i <= L.n && i !in cs
    requires CoverAt(L, i, H0, p, hid) && p != i
    ensures IsElement(L, p) && forall y :: y in HideSeq(L, p) ==> y !in hid
    ensures var t := Down(L, hid + HideSeq(L, p), p);
            (t == i || p < t) && CoverAt(L, i, H0, t, hid + HideSeq(L, p))
  {
    CoverNext(L, i, H0, p, hid);
    CoverStepFresh(L, cs, H0, i, p, hid);
  }

  /** The state of `uncover(i)` with cursor p: the options of the nodes of column i
      from p upwards are still hidden, those below p have been restored. */
  ghost predicate UncoverAt(L: Layout, i: int, H0: seq<int>, p: int, hid: seq<int>)
    requires Sized(L) && 1 <= i <= L.n
  {
    && (p == i || (L.n + 2 <= p < |L.top| && Live(L, i, p, Elems(H0))))
    && hid == H0 + CoverRange(L, i, L.n + 2, if p == i then L.n + 2 else p + 1, H0)
  }

  lemma UncoverStart(L: Layout, i: int, H0: seq<int>)
    requires Sized(L) && DistinctItems(L) && 1 <= i <= L.n
    ensures var hid := H0 + CoverPushes(L, i, H0);
            UncoverAt(L, i, H0, Up(L, hid, i), hid)
  {
    var hid := H0 + CoverPushes(L, i, H0);
    PrevAfterCover(L, i, H0, |L.top|, |L.top| - 1);
    PrevInSpec(L, i, |L.top| - 1, Elems(H0));
    CoverRangeSkipDown(L, i, |L.top| - 1, H0);
  }

  /** `unhide(p)` pops p's option, and p's ulink moves the cursor of `uncover(i)` up. */
  lemma UncoverNext(L: Layout, i: int, H0: seq<int>, p: int, hid: seq<int>)
    requires Sized(L) && DistinctItems(L) && 1 <= i <= L.n
    requires UncoverAt(L, i, H0, p, hid) && p != i
    ensures IsElement(L, p) && L.top[p] == i && p !in H0
    ensures var hid' := H0 + CoverRange(L, i, L.n + 2, p, H0);
            var t := Up(L, hid', p);
            && hid == hid' + HideSeq(L, p)
            && (t == i || t < p) && UncoverAt(L, i, H0, t, hid')
  {
    var R := CoverRange(L, i, L.n + 2, p, H0);
    var hid' := H0 + R;
    CoverRangeLast(L, i, p, H0);
    ColumnKept(L, i, L.n + 2, p, H0, p);
    assert p !in hid';
    PriorNotIn(hid', p);
    PrevAfterCover(L, i, H0, p, p - 1);
    assert Up(L, hid', p) == PrevIn(L, i, p - 1, Elems(H0));
    UncoverBelow(L, i, H0, p);
  }

  /** The linked node of column i above p is where `uncover(i)` continues, once
      the options from p downwards are restored. */
  lemma UncoverBelow(L: Layout, i: int, H0: seq<int>, p: int)
    requires Sized(L) && 1 <= i <= L.n && L.n + 2 <= p < |L.top|
    ensures var t := PrevIn(L, i, p - 1, Elems(H0));
            (t == i || t < p) && UncoverAt(L, i, H0, t, H0 + CoverRange(L, i, L.n + 2, p, H0))
  {
    var t := PrevIn(L, i, p - 1, Elems(H0));
    PrevInSpec(L, i, p - 1, Elems(H0));
    CoverRangeSkipDown(L, i, p - 1, H0);
    UncoverAtIntro(L, i, H0, t, if t == i then L.n + 2 else t + 1, p);
  }

  /** The cursor state of `uncover(i)` from the live node p (or the header)
      whose range of hides ends at b, when that range equals the one up to c. */
  lemma UncoverAtIntro(L: Layout, i: int, H0: seq<int>, p: int, b: int, c: int)
    requires Sized(L) && 1 <= i <= L.n && L.n + 2 <= b <= |L.top| && L.n + 2 <= c <= |L.top|
    requires p == i || (L.n + 2 <= p < |L.top| && Live(L, i, p, Elems(H0)))
    requires b == if p == i then L.n + 2 else p + 1
    requires CoverRange(L, i, L.n + 2, b, H0) == CoverRange(L, i, L.n + 2, c, H0)
    ensures UncoverAt(L, i, H0, p, H0 + CoverRange(L, i, L.n + 2, c, H0))
  {
  }

  /** The range of `cover(i)` up to and including a linked node p of column i
      ends with p's option. */
  lemma CoverRangeLast(L: Layout, i: int, p: int, H: seq<int>)
    requires Sized(L) && 1 <= i <= L.n && L.n + 2 <= p < |L.top| && Live(L, i, p, Elems(H))
    ensures H + CoverRange(L, i, L.n + 2, p + 1, H) == (H + CoverRange(L, i, L.n + 2, p, H)) + HideSeq(L, p)
  {
    AppendAssoc(H, CoverRange(L, i, L.n + 2, p, H), HideSeq(L, p));
  }

  lemma AppendAssoc(a: seq<int>, b: seq<int>, c: seq<int>)
    ensures a + (b + c) == (a + b) + c
  {
  }

  /** One turn of the loop of `uncover(i)` at cursor p: the top of the hidden
      stack is p's option, and following p's ulink after `unhide(p)` moves the
      cursor up. */
  lemma UncoverLoopStep(L: Layout, cs: seq<int>, H0: seq<int>, i: int, p: int, hid: seq<int>) returns (hid': seq<int>, t: int)
    requires Sized(L) && DistinctItems(L) && Headers(L, cs) && Distinct(cs) && H0 == HiddenOf(L, cs)
    requires 1 <= i <= L.n && i !in cs
    requires UncoverAt(L, i, H0, p, hid) && p != i
    ensures IsElement(L, p) && hid == hid' + HideSeq(L, p)
    ensures forall y :: y in HideSeq(L, p) ==> y !in hid'
    ensures t == Up(L, hid', p) && (t == i || t < p) && UncoverAt(L, i, H0, t, hid')
  {
    hid' := H0 + CoverRange(L, i, L.n + 2, p, H0);
    t := Up(L, hid', p);
    UncoverNext(L, i, H0, p, hid);
    CoverStepFresh(L, cs, H0, i, p, hid');
  }

  // ---------------------------------------------------------------------------
  // The covered stack determines the hidden stack

  lemma HiddenOfAppend(L: Layout, cs: seq<int>, i: int)
    requires Sized(L) && Headers(L, cs) && 1 <= i <= L.n
    ensures Headers(L, cs + [i])
    ensures HiddenOf(L, cs + [i]) == HiddenOf(L, cs) + CoverPushes(L, i, HiddenOf(L, cs))
  {
    HiddenUpToAppend(L, cs, i, |cs|);
  }

  /** Covering distinct items one after another from the built arena keeps every
      option that has a node linked in an uncovered column whole. */
  lemma {:induction false} HiddenOfClosed(L: Layout, cs: seq<int>)
    requires Sized(L) && DistinctItems(L) && Headers(L, cs) && Distinct(cs)
    ensures Closed(L, cs, HiddenOf(L, cs))
    ensures forall y :: y in HiddenOf(L, cs) ==> IsElement(L, y)
    decreases |cs|
  {
    if cs != [] {
      var cs0, i := cs[..|cs| - 1], cs[|cs| - 1];
      SplitLast(cs);
      DistinctPop(cs0, i);
      HiddenOfClosed(L, cs0);
      HiddenOfAppend(L, cs0, i);
      ClosedStep(L, cs0, i, HiddenOf(L, cs0));
    }
  }

  /** `cover(i)` of an uncovered item keeps every untouched option whole. */
  lemma ClosedStep(L: Layout, cs0: seq<int>, i: int, H: seq<int>)
    requires Sized(L) && DistinctItems(L) && 1 <= i <= L.n && i !in cs0
    requires Closed(L, cs0, H) && forall y :: y in H ==> IsElement(L, y)
    ensures var P := CoverPushes(L, i, H);
            && Closed(L, cs0 + [i], H + P)
            && forall y :: y in H + P ==> IsElement(L, y)
  {
    var P := CoverPushes(L, i, H);
    PushedElements(L, i, H, P);
    forall y | IsElement(L, y) && y !in H + P && L.top[y] !in cs0 + [i]
      ensures OptionFree(L, y, cs0 + [i], H + P)
    {
      StaysFree(L, cs0, i, H, P, y);
    }
  }

  /** `cover(i)` hides only option elements. */
  lemma PushedElements(L: Layout, i: int, H: seq<int>, P: seq<int>)
    requires Sized(L) && DistinctItems(L) && 1 <= i <= L.n
    requires P == CoverPushes(L, i, H) && forall y :: y in H ==> IsElement(L, y)
    ensures forall y :: y in H + P ==> IsElement(L, y)
  {
    forall y | y in P ensures IsElement(L, y) {
      CoverRangeColumns(L, i, L.n + 2, |L.top|, H, y);
    }
  }

  /** An option that `cover(i)` leaves linked stays free of hidden nodes and
      covered items: had it a node in column i, all its other nodes would have
      been hidden. */
  lemma StaysFree(L: Layout, cs0: seq<int>, i: int, H: seq<int>, P: seq<int>, y: int)
    requires Sized(L) && DistinctItems(L) && 1 <= i <= L.n && IsElement(L, y)
    requires P == CoverPushes(L, i, H) && y !in H + P && L.top[y] !in cs0 + [i]
    requires Closed(L, cs0, H)
    ensures OptionFree(L, y, cs0 + [i], H + P)
  {
    assert L.top[y] !in cs0 && L.top[y] != i && y !in H;
    assert OptionFree(L, y, cs0, H);
    forall z | OptStart(L, y) <= z < OptEnd(L, y) ensures z !in H + P && L.top[z] !in cs0 + [i] {
      SameOption(L, y, z);
      CoverPushesReach(L, i, H, y, z);
      if z in P {
        var w := CoverPushesOrigin(L, i, H, z);
        CoverPushesReach(L, i, H, y, w);
        assert false;
      }
    }
  }


  // ---------------------------------------------------------------------------
  // The items covered by committing to an option

  /** The columns of the nodes s. */
  function MapTop(L: Layout, s: seq<int>): (r: seq<int>)
    ensures |r| == |s|
  {
    seq(|s|, k requires 0 <= k < |s| => if 0 <= s[k] < |L.top| then L.top[s[k]] else 0)
  }

  lemma SplitLast(s: seq<int>)
    requires s != []
    ensures s == s[..|s| - 1] + [s[|s| - 1]]
  {
  }

  lemma MapTopConcat(L: Layout, s: seq<int>, t: seq<int>)
    ensures MapTop(L, s + t) == MapTop(L, s) + MapTop(L, t)
  {
  }

  lemma MapTopAppend(L: Layout, s: seq<int>, q: int)
    requires 0 <= q < |L.top|
    ensures MapTop(L, s + [q]) == MapTop(L, s) + [L.top[q]]
  {
  }

  /** Walking p's option from x, the column of the node reached is not among the
      columns passed so far. */
  lemma PushedColumns(L: Layout, x: int, p: int)
    requires Sized(L) && DistinctItems(L) && IsElement(L, x) && Cursor(L, x, p)
    requires p in HideSeq(L, x) && p !in Pushed(L, x, p)
    ensures L.top[p] !in MapTop(L, Pushed(L, x, p))
  {
    var P := Pushed(L, x, p);
    HideSeqIn(L, x, p);
    SameOption(L, x, p);
    if L.top[p] in MapTop(L, P) {
      var k :| 0 <= k < |P| && MapTop(L, P)[k] == L.top[p];
      var z := P[k];
      PushedIn(L, x, p, z);
      DistinctColumns(L, p, z);
      assert false;
    }
  }

  /** The items covered when the search commits to element x: x's own column
      first, then the other items of x's option in the order the walk meets them. */
  function Cols(L: Layout, x: int): seq<int> {
    if IsElement(L, x) then [L.top[x]] + MapTop(L, HideSeq(L, x)) else []
  }

  /** One step of the commit walk over x's option at cursor p, with C the items
      covered before it: a spacer sends the walk (through its ulink) to the
      option's first node, an element's column is a fresh item to cover next. */
  lemma CommitStep(L: Layout, hid: seq<int>, x: int, p: int, C: seq<int>)
    requires InRange(L) && Framed(L) && DistinctItems(L) && IsElement(L, x)
    requires Cursor(L, x, p) && p != x
    requires forall y :: y in HideSeq(L, x) ==> L.top[y] !in C
    ensures L.n + 2 <= p < |L.top|
    ensures L.top[p] <= 0 ==>
              p == OptEnd(L, x) && Up(L, hid, p) == OptStart(L, x)
              && Cursor(L, x, Up(L, hid, p)) && Pushed(L, x, Up(L, hid, p)) == Pushed(L, x, p)
    ensures L.top[p] > 0 ==>
              Cursor(L, x, p + 1) && L.top[p] !in C + MapTop(L, Pushed(L, x, p))
              && C + MapTop(L, Pushed(L, x, p + 1)) == C + MapTop(L, Pushed(L, x, p)) + [L.top[p]]
  {
    HideWrap(L, hid, x);
    HideStep(L, x, p);
    if L.top[p] > 0 {
      PushedColumns(L, x, p);
      MapTopAppend(L, Pushed(L, x, p), p);
    }
  }

  /** One step of the uncommit walk over x's option at cursor p (everything
      after p already uncovered): a spacer sends the walk (through its dlink) to
      the option's last node, an element's column is the item covered last. */
  lemma UncommitStep(L: Layout, hid: seq<int>, x: int, p: int, C: seq<int>)
    requires InRange(L) && Framed(L) && IsElement(L, x)
    requires Cursor(L, x, p + 1) && p != x
    ensures L.n + 1 <= p < |L.top|
    ensures L.top[p] <= 0 ==>
              p == OptStart(L, x) - 1 && Down(L, hid, p) == OptEnd(L, x) - 1
              && Cursor(L, x, Down(L, hid, p) + 1)
              && Pushed(L, x, Down(L, hid, p) + 1) == Pushed(L, x, p + 1)
    ensures L.top[p] > 0 ==>
              var P := C + MapTop(L, Pushed(L, x, p));
              && Cursor(L, x, p)
              && C + MapTop(L, Pushed(L, x, p + 1)) == P + [L.top[p]]
              && (P + [L.top[p]])[..|P|] == P
  {
    UnhideWrap(L, hid, x);
    UnhideStep(L, x, p);
    if L.top[p] > 0 {
      MapTopAppend(L, Pushed(L, x, p), p);
      var P := C + MapTop(L, Pushed(L, x, p));
      assert (P + [L.top[p]])[..|P|] == P;
    }
  }
}
