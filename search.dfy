/** What the backtracking search of `solve` keeps on its stack x[0 .. l): the
    element nodes it has committed to, the items they cover, the choices they
    stand for, and the measure that shows the search ends. */
module Search {
  import opened Layouts
  import opened Render
  import opened History
  import opened Problems

  predicate AllElements(L: Layout, xs: seq<int>) {
    forall k :: 0 <= k < |xs| ==> IsElement(L, xs[k])
  }

  /** The items covered after committing to the element nodes xs, in order. */
  function Chosen(L: Layout, xs: seq<int>): seq<int>
    decreases |xs|
  {
    if xs == [] then [] else Chosen(L, xs[..|xs| - 1]) + Cols(L, xs[|xs| - 1])
  }

  /** Element x may be committed to after the items cs are covered: it is still
      linked, in a column that is not covered. */
  ghost predicate Fresh(L: Layout, cs: seq<int>, x: int)
    requires Sized(L)
  {
    IsElement(L, x) && L.top[x] !in cs && x !in HiddenOf(L, cs)
  }

  /** Every node on the stack was fresh when the search committed to it. */
  ghost predicate Committed(L: Layout, xs: seq<int>)
    requires Sized(L)
    decreases |xs|
  {
    || xs == []
    || (var ys := xs[..|xs| - 1];
        && Committed(L, ys) && AllElements(L, ys) && Headers(L, Chosen(L, ys))
        && Fresh(L, Chosen(L, ys), xs[|xs| - 1]))
  }

  /** The spacer marker that closes element x's option: the choice number, from 1. */
  function OptionNumber(L: Layout, x: int): int {
    if Sized(L) && L.n + 2 <= x < |L.top| && WallFrom(L, x) < |L.top| then -L.top[WallFrom(L, x)] else 0
  }

  /** The choice numbers of the committed nodes: what `solve` returns. */
  function OptionsOf(L: Layout, xs: seq<int>): (r: seq<int>)
    ensures |r| == |xs|
    decreases |xs|
  {
    if xs == [] then [] else OptionsOf(L, xs[..|xs| - 1]) + [OptionNumber(L, xs[|xs| - 1])]
  }

  lemma {:induction false} OptionsOfAt(L: Layout, xs: seq<int>, k: int)
    requires InRange(L) && Framed(L) && AllElements(L, xs) && 0 <= k < |xs|
    ensures OptionsOf(L, xs)[k] == OptionNumber(L, xs[k])
    decreases |xs|
  {
    if k < |xs| - 1 {
      var ys := xs[..|xs| - 1];
      OptionsOfAt(L, ys, k);
    }
  }

  // ---------------------------------------------------------------------------
  // The stack

  lemma ColsHeaders(L: Layout, x: int)
    requires InRange(L) && IsElement(L, x)
    ensures Headers(L, Cols(L, x))
  {
    forall k | 0 <= k < |Cols(L, x)| ensures 1 <= Cols(L, x)[k] <= L.n {
      if k > 0 {
        var y := HideSeq(L, x)[k - 1];
        HideSeqIn(L, x, y);
        SameOption(L, x, y);
      }
    }
  }

  /** The items the stack covers are items, and at least one per level. */
  lemma {:induction false} ChosenHeaders(L: Layout, xs: seq<int>)
    requires InRange(L) && AllElements(L, xs)
    ensures Headers(L, Chosen(L, xs)) && |Chosen(L, xs)| >= |xs|
    decreases |xs|
  {
    if xs != [] {
      var ys := xs[..|xs| - 1];
      ChosenHeaders(L, ys);
      ColsHeaders(L, xs[|xs| - 1]);
    }
  }

  /** Pushing a fresh node onto the stack. */
  lemma CommittedPush(L: Layout, xs: seq<int>, x: int)
    requires InRange(L) && AllElements(L, xs) && Committed(L, xs)
    requires Headers(L, Chosen(L, xs)) && Fresh(L, Chosen(L, xs), x)
    ensures AllElements(L, xs + [x]) && Committed(L, xs + [x])
    ensures Chosen(L, xs + [x]) == Chosen(L, xs) + Cols(L, x)
  {
    assert (xs + [x])[..|xs|] == xs;
  }

  /** Popping the top of the stack. */
  lemma CommittedPop(L: Layout, xs: seq<int>)
    requires InRange(L) && AllElements(L, xs) && Committed(L, xs) && xs != []
    ensures var ys := xs[..|xs| - 1];
            && AllElements(L, ys) && Committed(L, ys) && Headers(L, Chosen(L, ys))
            && Fresh(L, Chosen(L, ys), xs[|xs| - 1])
            && Chosen(L, xs) == Chosen(L, ys) + Cols(L, xs[|xs| - 1])
  {
  }

  /** `cover(i)` leaves the nodes of column i where they were. */
  lemma CoveredKeeps(L: Layout, cs: seq<int>, i: int, y: int)
    requires Sized(L) && DistinctItems(L) && Headers(L, cs) && 1 <= i <= L.n
    requires 0 <= y < |L.top| && L.top[y] == i && y !in HiddenOf(L, cs)
    ensures Headers(L, cs + [i]) && HiddenOf(L, cs + [i]) == HiddenOf(L, cs) + CoverPushes(L, i, HiddenOf(L, cs))
    ensures y !in HiddenOf(L, cs + [i])
  {
    HiddenOfAppend(L, cs, i);
    ColumnKept(L, i, L.n + 2, |L.top|, HiddenOf(L, cs), y);
  }

  /** After `cover(i)`, the dlink of the header i is i or a fresh node of column i. */
  lemma FirstCandidate(L: Layout, cs: seq<int>, i: int)
    requires Sized(L) && DistinctItems(L) && Headers(L, cs) && 1 <= i <= L.n && i !in cs
    ensures var t := Down(L, HiddenOf(L, cs + [i]), i);
            t == i || (Fresh(L, cs, t) && L.top[t] == i)
  {
    var H := HiddenOf(L, cs);
    HiddenOfAppend(L, cs, i);
    FirstLive(L, i, H, CoverPushes(L, i, H));
  }

  /** The dlink of header i, once the nodes of H + P are hidden, is i or a node
      of column i outside H. */
  lemma FirstLive(L: Layout, i: int, H: seq<int>, P: seq<int>)
    requires Sized(L) && 1 <= i <= L.n
    ensures var t := Down(L, H + P, i);
            t == i || (IsElement(L, t) && L.top[t] == i && t !in H)
  {
    var hid := H + P;
    NextInSpec(L, i, L.n + 2, Elems(hid));
    var t := NextIn(L, i, L.n + 2, Elems(hid));
    if t != i {
      assert Live(L, i, t, Elems(hid));
      assert t !in hid;
      assert t !in H;
    }
  }

  /** After `cover(i)`, the dlink of a fresh node y of column i is i or a later
      fresh node of column i. */
  lemma NextCandidate(L: Layout, cs: seq<int>, i: int, y: int)
    requires Sized(L) && DistinctItems(L) && Headers(L, cs) && 1 <= i <= L.n && i !in cs
    requires IsElement(L, y) && L.top[y] == i && y !in HiddenOf(L, cs)
    ensures var t := Down(L, HiddenOf(L, cs + [i]), y);
            t == i || (y < t && Fresh(L, cs, t) && L.top[t] == i)
  {
    var H := HiddenOf(L, cs);
    CoveredKeeps(L, cs, i, y);
    NextLive(L, i, H, CoverPushes(L, i, H), y);
  }

  /** The dlink of a linked node y of column i, once the nodes of H + P are
      hidden, is i or a later node of column i outside H. */
  lemma NextLive(L: Layout, i: int, H: seq<int>, P: seq<int>, y: int)
    requires Sized(L) && 1 <= i <= L.n && IsElement(L, y) && L.top[y] == i && y !in H + P
    ensures var t := Down(L, H + P, y);
            t == i || (y < t && IsElement(L, t) && L.top[t] == i && t !in H)
  {
    var hid := H + P;
    PriorNotIn(hid, y);
    NextInSpec(L, i, y + 1, Elems(hid));
    var t := NextIn(L, i, y + 1, Elems(hid));
    if t != i {
      assert Live(L, i, t, Elems(hid));
      assert t !in hid;
      assert t !in H;
    }
  }

  /** The other items of a fresh node's option are all still uncovered. */
  lemma FreshOthers(L: Layout, cs: seq<int>, x: int)
    requires Sized(L) && DistinctItems(L) && Headers(L, cs) && Distinct(cs) && Fresh(L, cs, x)
    ensures forall y :: y in HideSeq(L, x) ==> L.top[y] !in cs + [L.top[x]]
  {
    HiddenOfClosed(L, cs);
    assert OptionFree(L, x, cs, HiddenOf(L, cs));
    forall y | y in HideSeq(L, x) ensures L.top[y] !in cs + [L.top[x]] {
      HideSeqIn(L, x, y);
      DistinctColumns(L, x, y);
    }
  }

  /** Committing to a fresh node y of the item i just covered: the other items of
      its option are uncovered, and covering them completes Chosen for the
      stack with y pushed. */
  lemma CommitReady(L: Layout, xs: seq<int>, y: int, i: int, cov: seq<int>)
    requires WF(L) && AllElements(L, xs) && Committed(L, xs) && Headers(L, Chosen(L, xs))
    requires Fresh(L, Chosen(L, xs), y) && L.top[y] == i
    requires Distinct(cov) && cov == Chosen(L, xs) + [i]
    ensures forall z :: z in HideSeq(L, y) ==> L.top[z] !in cov
    ensures AllElements(L, xs + [y]) && Committed(L, xs + [y])
    ensures Chosen(L, xs + [y]) == cov + MapTop(L, HideSeq(L, y))
  {
    DistinctPop(Chosen(L, xs), i);
    FreshOthers(L, Chosen(L, xs), y);
    CommittedPush(L, xs, y);
    AppendAssoc(Chosen(L, xs), [i], MapTop(L, HideSeq(L, y)));
  }

  // ---------------------------------------------------------------------------
  // How many levels the stack can have

  lemma {:induction false} DistinctCard(s: seq<int>)
    requires Distinct(s)
    ensures |Elems(s)| == |s|
    decreases |s|
  {
    if s != [] {
      var s', v := s[..|s| - 1], s[|s| - 1];
      assert s == s' + [v];
      DistinctPop(s', v);
      assert v !in s';
      assert Elems(s) == Elems(s') + {v};
      DistinctCard(s');
    }
  }

  lemma SubsetCard(A: set<int>, B: set<int>)
    requires A <= B
    ensures |A| <= |B|
  {
    assert B == A + (B - A);
  }

  /** A stack of distinct items that misses the item i has fewer than n entries. */
  lemma MissingItem(L: Layout, cs: seq<int>, i: int)
    requires Headers(L, cs) && Distinct(cs) && 1 <= i <= L.n && i !in cs
    ensures |cs| < L.n
  {
    DistinctCard(cs);
    var R := Run(1, L.n + 1);
    DistinctCard(R);
    forall v | v in Elems(cs) ensures v in Elems(R) - {i} {
      assert R[v - 1] == v;
    }
    assert R[i - 1] == i;
    SubsetCard(Elems(cs), Elems(R) - {i});
  }

  // ---------------------------------------------------------------------------
  // The measure: the stack read as a number in mixed radix

  /** A level's digit: the later the node in its column, the smaller; the header
      (the column is used up) is 0. */
  function Digit(L: Layout, v: int): int {
    if L.n + 2 <= v < |L.top| then |L.top| - v else 0
  }

  /** The stack's digits, padded to N levels with the largest digit. */
  function Digits(L: Layout, xs: seq<int>, N: nat): (r: seq<int>)
    ensures |r| == N
  {
    seq(N, k requires 0 <= k < N => if k < |xs| then Digit(L, xs[k]) else |L.top|)
  }

  /** Horner evaluation of the digits ds in base B. */
  function Val(ds: seq<int>, B: int): int
    decreases |ds|
  {
    if ds == [] then 0 else Val(ds[..|ds| - 1], B) * B + ds[|ds| - 1]
  }

  function Measure(L: Layout, xs: seq<int>, N: nat): int {
    Val(Digits(L, xs, N), |L.top| + 1)
  }

  predicate DigitsBelow(ds: seq<int>, B: int) {
    forall k :: 0 <= k < |ds| ==> 0 <= ds[k] < B
  }

  lemma HornerLess(a: int, b: int, d: int, e: int, B: int)
    requires a + 1 <= b && 0 <= d < B && 0 <= e
    ensures a * B + d < b * B + e
  {
    assert (a + 1) * B <= b * B;
    assert (a + 1) * B == a * B + B;
  }

  /** Lexicographically smaller digits give a smaller value. */
  lemma {:induction false} ValLess(ds: seq<int>, es: seq<int>, k: int, B: int)
    requires |ds| == |es| && 0 <= k < |ds| && B > 0
    requires DigitsBelow(ds, B) && DigitsBelow(es, B)
    requires ds[..k] == es[..k] && ds[k] < es[k]
    ensures Val(ds, B) < Val(es, B)
    decreases |ds|
  {
    var m := |ds| - 1;
    var ds', es' := ds[..m], es[..m];
    assert ds == ds' + [ds[m]] && es == es' + [es[m]];
    if k == m {
      assert ds' == es';
    } else {
      assert ds'[..k] == ds[..k] && es'[..k] == es[..k];
      ValLess(ds', es', k, B);
      HornerLess(Val(ds', B), Val(es', B), ds[m], es[m], B);
    }
  }

  lemma {:induction false} ValNonneg(ds: seq<int>, B: int)
    requires DigitsBelow(ds, B) && B > 0
    ensures Val(ds, B) >= 0
    decreases |ds|
  {
    if ds != [] {
      ValNonneg(ds[..|ds| - 1], B);
    }
  }

  lemma MeasureNonneg(L: Layout, xs: seq<int>, N: nat)
    ensures Measure(L, xs, N) >= 0
  {
    ValNonneg(Digits(L, xs, N), |L.top| + 1);
  }

  /** The measure falls when the stack changes at level k to a smaller digit. */
  lemma MeasureLess(L: Layout, xs: seq<int>, ys: seq<int>, N: nat, k: int)
    requires |xs| <= N && |ys| <= N && 0 <= k < N && k <= |xs| && k <= |ys|
    requires xs[..k] == ys[..k] && Digits(L, xs, N)[k] < Digits(L, ys, N)[k]
    ensures Measure(L, xs, N) < Measure(L, ys, N)
  {
    var D, E := Digits(L, xs, N), Digits(L, ys, N);
    assert D[..k] == E[..k] by {
      forall j | 0 <= j < k ensures D[j] == E[j] {
        assert xs[j] == xs[..k][j] && ys[j] == ys[..k][j];
      }
    }
    ValLess(D, E, k, |L.top| + 1);
  }

  /** Pushing any node onto a stack shorter than N lowers the measure. */
  lemma MeasurePush(L: Layout, xs: seq<int>, t: int, N: nat)
    requires 0 < |L.top| && |xs| < N
    ensures Measure(L, xs + [t], N) < Measure(L, xs, N)
  {
    assert (xs + [t])[..|xs|] == xs[..|xs|];
    MeasureLess(L, xs + [t], xs, N, |xs|);
  }

  /** Going back from the exhausted level above element y and moving y's level
      on to t, a header or a later node, lowers the measure. */
  lemma MeasureRetreat(L: Layout, xs: seq<int>, c: int, t: int, N: nat)
    requires |xs| < N && xs != [] && IsElement(L, xs[|xs| - 1])
    requires t < L.n + 2 || xs[|xs| - 1] < t
    ensures Measure(L, xs[..|xs| - 1] + [t], N) < Measure(L, xs + [c], N)
  {
    var k := |xs| - 1;
    assert (xs[..k] + [t])[..k] == (xs + [c])[..k];
    assert (xs + [c])[k] == xs[k];
    MeasureLess(L, xs[..k] + [t], xs + [c], N, k);
  }

  // ---------------------------------------------------------------------------
  // What the stack stands for

  lemma MapTopRun(L: Layout, a: int, b: int)
    requires 0 <= a <= b <= |L.top|
    ensures MapTop(L, Run(a, b)) == L.top[a..b]
  {
  }

  lemma SliceAround(s: seq<int>, a: int, m: int, b: int)
    requires 0 <= a <= m < b <= |s|
    ensures s[a..b] == s[a..m] + [s[m]] + s[m + 1..b]
  {
  }

  /** The items x's option covers, in the order the search covers them, are the
      columns of the option's nodes. */
  lemma ColsOption(L: Layout, x: int)
    requires Sized(L) && IsElement(L, x)
    ensures multiset(Cols(L, x)) == multiset(L.top[OptStart(L, x)..OptEnd(L, x)])
  {
    var S, E := OptStart(L, x), OptEnd(L, x);
    var M := MapTop(L, Run(x + 1, E) + Run(S, x));
    assert Cols(L, x) == [L.top[x]] + M by { ColsUnfold(L, x); }
    assert M == L.top[x + 1..E] + L.top[S..x] by { MapTopRuns(L, x + 1, E, S, x); }
    RotateMultiset(Cols(L, x), M, L.top, S, x, E);
  }

  /** The columns of x's option in walk order: x's own, those after it, then
      those before it. */
  lemma ColsUnfold(L: Layout, x: int)
    requires Sized(L) && IsElement(L, x)
    ensures Cols(L, x) == [L.top[x]] + MapTop(L, Run(x + 1, OptEnd(L, x)) + Run(OptStart(L, x), x))
  {
  }

  lemma MapTopRuns(L: Layout, a: int, b: int, c: int, d: int)
    requires 0 <= a <= b <= |L.top| && 0 <= c <= d <= |L.top|
    ensures MapTop(L, Run(a, b) + Run(c, d)) == L.top[a..b] + L.top[c..d]
  {
    MapTopConcat(L, Run(a, b), Run(c, d));
    MapTopRun(L, a, b);
    MapTopRun(L, c, d);
  }

  /** Starting a slice at m and wrapping round keeps its multiset. */
  lemma RotateMultiset(c: seq<int>, M: seq<int>, s: seq<int>, a: int, m: int, b: int)
    requires 0 <= a <= m < b <= |s|
    requires c == [s[m]] + M && M == s[m + 1..b] + s[a..m]
    ensures multiset(c) == multiset(s[a..b])
  {
    SliceAround(s, a, m, b);
  }

  /** ... and they are the items of the choice named by the option's spacer. */
  lemma ColsChoice(e: ExactCover, x: int)
    requires WellFormed(e) && IsElement(Arena(e), x)
    ensures WF(Arena(e)) && 1 <= OptionNumber(Arena(e), x) <= |e.choices|
    ensures multiset(Cols(Arena(e), x)) == multiset(e.choices[OptionNumber(Arena(e), x) - 1])
  {
    ArenaWF(e);
    var L := Arena(e);
    var r := ArenaOption(e, x);
    ColsOption(L, x);
    assert OptionNumber(L, x) == r + 1;
  }

  /** Every option of L is one of e's choices: the marker closing it numbers
      the choice, and it covers that choice's items. */
  ghost predicate Realizes(e: ExactCover, L: Layout) {
    forall x {:trigger RealizedAt(e, L, x)} :: IsElement(L, x) ==> RealizedAt(e, L, x)
  }

  /** The option of element x is the choice its closing marker numbers. */
  ghost predicate RealizedAt(e: ExactCover, L: Layout, x: int) {
    && 1 <= OptionNumber(L, x) <= |e.choices|
    && multiset(Cols(L, x)) == multiset(e.choices[OptionNumber(L, x) - 1])
  }


  /** The arena of a well-formed instance is well formed and realizes it. */
  lemma ArenaRealizes(e: ExactCover)
    requires WellFormed(e)
    ensures WF(Arena(e)) && Realizes(e, Arena(e))
  {
    ArenaWF(e);
    forall x | IsElement(Arena(e), x) ensures RealizedAt(e, Arena(e), x) {
      ColsChoice(e, x);
    }
  }

  /** The choices read off the stack cover the same items, with the same
      multiplicities, as the stack. */
  lemma {:induction false} OptionsCover(e: ExactCover, L: Layout, xs: seq<int>)
    requires InRange(L) && Framed(L) && Realizes(e, L) && AllElements(L, xs)
    ensures var sol := OptionsOf(L, xs);
            && Numbers(e, sol)
            && multiset(Flatten(e, sol)) == multiset(Chosen(L, xs))
    decreases |xs|
  {
    if xs != [] {
      var ys, x := xs[..|xs| - 1], xs[|xs| - 1];
      OptionsCover(e, L, ys);
      SplitLast(xs);
      assert RealizedAt(e, L, x);
      OptionsStep(e, L, ys, x);
    }
  }

  /** One more node on the stack adds its option's choice to both sides. */
  lemma OptionsStep(e: ExactCover, L: Layout, ys: seq<int>, x: int)
    requires RealizedAt(e, L, x)
    requires var sol := OptionsOf(L, ys);
             && Numbers(e, sol)
             && multiset(Flatten(e, sol)) == multiset(Chosen(L, ys))
    ensures var sol := OptionsOf(L, ys + [x]);
            && Numbers(e, sol)
            && multiset(Flatten(e, sol)) == multiset(Chosen(L, ys + [x]))
  {
    StackTopSplit(L, ys, x);
    FlattenStep(e, OptionsOf(L, ys), OptionNumber(L, x), Chosen(L, ys), Cols(L, x),
                OptionsOf(L, ys + [x]), Chosen(L, ys + [x]));
  }

  lemma StackTopSplit(L: Layout, ys: seq<int>, x: int)
    ensures OptionsOf(L, ys + [x]) == OptionsOf(L, ys) + [OptionNumber(L, x)]
    ensures Chosen(L, ys + [x]) == Chosen(L, ys) + Cols(L, x)
  {
    assert (ys + [x])[..|ys|] == ys;
  }

  /** Flatten, one choice at a time, against any item sequences with the same
      multisets. */
  lemma FlattenStep(e: ExactCover, sol: seq<int>, o: int, A: seq<int>, C: seq<int>,
                    sol': seq<int>, A': seq<int>)
    requires Numbers(e, sol)
    requires 1 <= o <= |e.choices|
    requires multiset(Flatten(e, sol)) == multiset(A) && multiset(e.choices[o - 1]) == multiset(C)
    requires sol' == sol + [o] && A' == A + C
    ensures Numbers(e, sol')
    ensures multiset(Flatten(e, sol')) == multiset(A')
  {
    FlattenPush(e, sol, o);
  }

  lemma FlattenPush(e: ExactCover, sol: seq<int>, o: int)
    requires Numbers(e, sol)
    requires 1 <= o <= |e.choices|
    ensures Numbers(e, sol + [o])
    ensures Flatten(e, sol + [o]) == Flatten(e, sol) + e.choices[o - 1]
  {
    assert (sol + [o])[..|sol|] == sol;
  }

  lemma {:induction false} DistinctMultiset(s: seq<int>)
    requires Distinct(s)
    ensures multiset(s) == multiset(Elems(s))
    decreases |s|
  {
    if s != [] {
      var s', v := s[..|s| - 1], s[|s| - 1];
      assert s == s' + [v];
      DistinctPop(s', v);
      assert v !in s';
      assert Elems(s) == Elems(s') + {v};
      DistinctMultiset(s');
    }
  }

  /** A stack of distinct items that holds every item is the items 1 .. n, up to order. */
  lemma AllItems(L: Layout, cs: seq<int>)
    requires Headers(L, cs) && Distinct(cs)
    requires forall j :: 1 <= j <= L.n ==> j in cs
    ensures multiset(cs) == multiset(Run(1, L.n + 1))
  {
    var R := Run(1, L.n + 1);
    DistinctMultiset(cs);
    DistinctMultiset(R);
    forall v ensures v in Elems(cs) <==> v in Elems(R) {
      if 1 <= v <= L.n { assert R[v - 1] == v; }
    }
    assert Elems(cs) == Elems(R);
  }

  /** When the stack's items are distinct and include every item, the choices it
      stands for form an exact cover. */
  lemma StackSolves(e: ExactCover, L: Layout, xs: seq<int>)
    requires InRange(L) && Framed(L) && Realizes(e, L) && AllElements(L, xs)
    requires |e.items| == L.n + 1 >= 1
    requires Distinct(Chosen(L, xs))
    requires forall j :: 1 <= j <= L.n ==> j in Chosen(L, xs)
    ensures IsExactCover(e, OptionsOf(L, xs))
  {
    ChosenHeaders(L, xs);
    AllItems(L, Chosen(L, xs));
    OptionsCover(e, L, xs);
  }
}
