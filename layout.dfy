/** The static shape of the Dancing-Links arena built by `init_solver`.

    Index 0 is the root of the header ring, indices 1..n are the item headers,
    index n+1 is the initial spacer, and then every option occupies a run of
    element nodes followed by its own spacer.  `top` is the `toplen` vector as far
    as it never changes: the column of every element node, a non-positive marker on
    every spacer, and 0 on the headers (whose live counts are the dynamic part). */
module Layouts {

  datatype Layout = Layout(n: nat, top: seq<int>)

  /** The arena holds at least the headers and the initial spacer. */
  predicate Sized(L: Layout) {
    |L.top| >= L.n + 2
  }

  /** An element node: past the initial spacer, with a positive column. */
  predicate IsElement(L: Layout, y: int) {
    L.n + 2 <= y < |L.top| && L.top[y] > 0
  }

  /** Node t is still linked into column c's vertical ring, given the set R of
      element nodes hidden so far. */
  predicate Live(L: Layout, c: int, t: int, R: set<int>)
    requires 0 <= t < |L.top|
  {
    L.top[t] == c && t !in R
  }

  /** Index of the first spacer at or after s (|top| if there is none). */
  function WallFrom(L: Layout, s: int): (w: int)
    requires Sized(L) && L.n + 1 <= s <= |L.top|
    ensures s <= w <= |L.top|
    ensures w < |L.top| ==> L.top[w] <= 0
    ensures s < |L.top| && L.top[|L.top| - 1] <= 0 ==> w < |L.top|
    decreases |L.top| - s
  {
    if s == |L.top| then s
    else if L.top[s] <= 0 then s
    else WallFrom(L, s + 1)
  }

  /** The spacer that closes the option holding element y. */
  function OptEnd(L: Layout, y: int): int
    requires Sized(L) && L.n + 2 <= y < |L.top|
  {
    WallFrom(L, y)
  }

  /** The first element node of the option holding node s (scanning back to the
      preceding spacer). */
  function OptStart(L: Layout, s: int): (b: int)
    requires Sized(L) && L.n + 2 <= s < |L.top|
    ensures L.n + 2 <= b <= s
    ensures L.top[b - 1] <= 0 || b == L.n + 2
    decreases s
  {
    if s - 1 <= L.n + 1 || L.top[s - 1] <= 0 then s
    else OptStart(L, s - 1)
  }

  /** Every element node names one of the n items. */
  predicate InRange(L: Layout) {
    Sized(L) && forall y :: L.n + 2 <= y < |L.top| ==> L.top[y] <= L.n
  }

  /** The well-formedness of a built arena that the search relies on. */
  predicate WF(L: Layout) {
    InRange(L) && Framed(L) && DistinctItems(L)
  }

  /** Root, headers and the first spacer carry top 0, and the arena ends with a spacer. */
  predicate Framed(L: Layout)
    requires Sized(L)
  {
    && (forall y :: 0 <= y < L.n + 2 ==> L.top[y] == 0)
    && L.top[|L.top| - 1] <= 0
  }

  /** The items of one option are distinct. */
  predicate DistinctItems(L: Layout)
    requires Sized(L)
  {
    forall y, y' {:trigger ItemsApart(L, y, y')} :: L.n + 2 <= y < y' < |L.top| ==> ItemsApart(L, y, y')
  }

  /** Nodes y < y' of one option lie in different columns. */
  predicate ItemsApart(L: Layout, y: int, y': int)
    requires Sized(L)
  {
    L.n + 2 <= y < y' < |L.top| && L.top[y] > 0 && y' < WallFrom(L, y) ==> L.top[y] != L.top[y']
  }

  /** The first node at or after s still in column c's ring, or the header c. */
  function NextIn(L: Layout, c: int, s: int, R: set<int>): int
    requires Sized(L) && L.n + 2 <= s <= |L.top|
    decreases |L.top| - s
  {
    if s == |L.top| then c
    else if Live(L, c, s, R) then s
    else NextIn(L, c, s + 1, R)
  }

  /** The last node at or before s still in column c's ring, or the header c. */
  function PrevIn(L: Layout, c: int, s: int, R: set<int>): int
    requires Sized(L) && L.n + 1 <= s < |L.top|
    decreases s
  {
    if s == L.n + 1 then c
    else if Live(L, c, s, R) then s
    else PrevIn(L, c, s - 1, R)
  }

  /** Number of nodes at or after s still in column c's ring. */
  function CountFrom(L: Layout, c: int, s: int, R: set<int>): nat
    requires Sized(L) && L.n + 2 <= s <= |L.top|
    decreases |L.top| - s
  {
    if s == |L.top| then 0
    else (if Live(L, c, s, R) then 1 else 0) + CountFrom(L, c, s + 1, R)
  }

  /** The first header at or after s that is not covered, or the root 0. */
  function RNext(L: Layout, s: int, C: set<int>): int
    requires 1 <= s <= L.n + 1
    decreases L.n + 1 - s
  {
    if s == L.n + 1 then 0
    else if s !in C then s
    else RNext(L, s + 1, C)
  }

  /** The last header at or before s that is not covered, or the root 0. */
  function LPrev(L: Layout, s: int, C: set<int>): int
    requires 0 <= s <= L.n
    decreases s
  {
    if s == 0 then 0
    else if s !in C then s
    else LPrev(L, s - 1, C)
  }

  // ---------------------------------------------------------------------------
  // Characterisations of the scans

  lemma NextInSpec(L: Layout, c: int, s: int, R: set<int>)
    requires Sized(L) && 1 <= c <= L.n && L.n + 2 <= s <= |L.top|
    ensures var r := NextIn(L, c, s, R);
      || (r == c && forall t :: s <= t < |L.top| ==> !Live(L, c, t, R))
      || (s <= r < |L.top| && Live(L, c, r, R) && forall t :: s <= t < r ==> !Live(L, c, t, R))
    decreases |L.top| - s
  {
    if s < |L.top| && !Live(L, c, s, R) {
      NextInSpec(L, c, s + 1, R);
    }
  }

  lemma NextInIs(L: Layout, c: int, s: int, R: set<int>, r: int)
    requires Sized(L) && L.n + 2 <= s <= |L.top|
    ensures (|| (r == c && forall t :: s <= t < |L.top| ==> !Live(L, c, t, R))
              || (s <= r < |L.top| && Live(L, c, r, R) && forall t :: s <= t < r ==> !Live(L, c, t, R)))
      ==> NextIn(L, c, s, R) == r
    decreases |L.top| - s
  {
    if s < |L.top| && s != r {
      NextInIs(L, c, s + 1, R, r);
    }
  }

  lemma PrevInSpec(L: Layout, c: int, s: int, R: set<int>)
    requires Sized(L) && 1 <= c <= L.n && L.n + 1 <= s < |L.top|
    ensures var r := PrevIn(L, c, s, R);
      || (r == c && forall t :: L.n + 2 <= t <= s ==> !Live(L, c, t, R))
      || (L.n + 2 <= r <= s && Live(L, c, r, R) && forall t :: r < t <= s ==> !Live(L, c, t, R))
    decreases s
  {
    if s > L.n + 1 && !Live(L, c, s, R) {
      PrevInSpec(L, c, s - 1, R);
    }
  }

  lemma PrevInIs(L: Layout, c: int, s: int, R: set<int>, r: int)
    requires Sized(L) && L.n + 1 <= s < |L.top|
    ensures (|| (r == c && forall t :: L.n + 2 <= t <= s ==> !Live(L, c, t, R))
              || (L.n + 2 <= r <= s && Live(L, c, r, R) && forall t :: r < t <= s ==> !Live(L, c, t, R)))
      ==> PrevIn(L, c, s, R) == r
    decreases s
  {
    if s > L.n + 1 && s != r {
      PrevInIs(L, c, s - 1, R, r);
    }
  }

  lemma RNextSpec(L: Layout, s: int, C: set<int>)
    requires 1 <= s <= L.n + 1
    ensures var r := RNext(L, s, C);
      || (r == 0 && forall t :: s <= t <= L.n ==> t in C)
      || (s <= r <= L.n && r !in C && forall t :: s <= t < r ==> t in C)
    decreases L.n + 1 - s
  {
    if s <= L.n && s in C {
      RNextSpec(L, s + 1, C);
    }
  }

  lemma RNextIs(L: Layout, s: int, C: set<int>, r: int)
    requires 1 <= s <= L.n + 1
    ensures (|| (r == 0 && forall t :: s <= t <= L.n ==> t in C)
              || (s <= r <= L.n && r !in C && forall t :: s <= t < r ==> t in C))
      ==> RNext(L, s, C) == r
    decreases L.n + 1 - s
  {
    if s <= L.n && s != r {
      RNextIs(L, s + 1, C, r);
    }
  }

  lemma LPrevSpec(L: Layout, s: int, C: set<int>)
    requires 0 <= s <= L.n
    ensures var r := LPrev(L, s, C);
      || (r == 0 && forall t :: 1 <= t <= s ==> t in C)
      || (1 <= r <= s && r !in C && forall t :: r < t <= s ==> t in C)
    decreases s
  {
    if s > 0 && s in C {
      LPrevSpec(L, s - 1, C);
    }
  }

  lemma LPrevIs(L: Layout, s: int, C: set<int>, r: int)
    requires 0 <= s <= L.n
    ensures (|| (r == 0 && forall t :: 1 <= t <= s ==> t in C)
              || (1 <= r <= s && r !in C && forall t :: r < t <= s ==> t in C))
      ==> LPrev(L, s, C) == r
    decreases s
  {
    if s > 0 && s != r {
      LPrevIs(L, s - 1, C, r);
    }
  }

  lemma NextIgnore(L: Layout, c: int, s: int, R: set<int>, R': set<int>)
    requires Sized(L) && L.n + 2 <= s <= |L.top|
    requires forall t :: 0 <= t < |L.top| && L.top[t] == c ==> (t in R <==> t in R')
    ensures NextIn(L, c, s, R) == NextIn(L, c, s, R')
    decreases |L.top| - s
  {
    if s < |L.top| { NextIgnore(L, c, s + 1, R, R'); }
  }

  lemma PrevIgnore(L: Layout, c: int, s: int, R: set<int>, R': set<int>)
    requires Sized(L) && L.n + 1 <= s < |L.top|
    requires forall t :: 0 <= t < |L.top| && L.top[t] == c ==> (t in R <==> t in R')
    ensures PrevIn(L, c, s, R) == PrevIn(L, c, s, R')
    decreases s
  {
    if s > L.n + 1 { PrevIgnore(L, c, s - 1, R, R'); }
  }

  lemma CountIgnore(L: Layout, c: int, s: int, R: set<int>, R': set<int>)
    requires Sized(L) && L.n + 2 <= s <= |L.top|
    requires forall t :: 0 <= t < |L.top| && L.top[t] == c ==> (t in R <==> t in R')
    ensures CountFrom(L, c, s, R) == CountFrom(L, c, s, R')
    decreases |L.top| - s
  {
    if s < |L.top| { CountIgnore(L, c, s + 1, R, R'); }
  }

  /** Hiding one more live node q of column c lowers the count from any s <= q by one. */
  lemma CountRemove(L: Layout, c: int, s: int, R: set<int>, q: int)
    requires Sized(L) && L.n + 2 <= s <= |L.top|
    requires 0 <= q < |L.top|
    ensures CountFrom(L, c, s, R + {q}) ==
            CountFrom(L, c, s, R) - (if s <= q && Live(L, c, q, R) then 1 else 0)
    decreases |L.top| - s
  {
    if s < |L.top| { CountRemove(L, c, s + 1, R, q); }
  }

  // ---------------------------------------------------------------------------
  // Options as runs between spacers

  /** Every node strictly inside the run of element y's option sees the same run. */
  lemma SameOption(L: Layout, y: int, z: int)
    requires Sized(L) && IsElement(L, y)
    requires OptStart(L, y) <= z < OptEnd(L, y)
    ensures IsElement(L, z)
    ensures OptStart(L, z) == OptStart(L, y) && OptEnd(L, z) == OptEnd(L, y)
  {
    InOption(L, y);
    WallFromIs(L, z, OptEnd(L, y));
    OptStartIs(L, z, OptStart(L, y));
  }

  /** No spacer lies between s and the wall it finds. */
  lemma {:induction false} WallFromAll(L: Layout, s: int)
    requires Sized(L) && L.n + 1 <= s <= |L.top|
    ensures forall t :: s <= t < WallFrom(L, s) ==> L.top[t] > 0
    decreases |L.top| - s
  {
    if s < |L.top| && L.top[s] > 0 {
      WallFromAll(L, s + 1);
    }
  }

  /** No spacer lies between the start OptStart finds and s. */
  lemma {:induction false} OptStartAll(L: Layout, s: int)
    requires Sized(L) && L.n + 2 <= s < |L.top|
    ensures forall t :: OptStart(L, s) <= t < s ==> L.top[t] > 0
    decreases s
  {
    if s - 1 > L.n + 1 && L.top[s - 1] > 0 {
      OptStartAll(L, s - 1);
    }
  }

  /** Every node of element y's option is an element. */
  lemma InOption(L: Layout, y: int)
    requires Sized(L) && IsElement(L, y)
    ensures forall t :: OptStart(L, y) <= t < OptEnd(L, y) ==> L.top[t] > 0
  {
    WallFromAll(L, y);
    OptStartAll(L, y);
  }

  lemma WallFromIs(L: Layout, s: int, w: int)
    requires Sized(L) && L.n + 1 <= s <= w <= |L.top|
    requires w == |L.top| || L.top[w] <= 0
    requires forall t :: s <= t < w ==> L.top[t] > 0
    ensures WallFrom(L, s) == w
    decreases w - s
  {
    if s < w { WallFromIs(L, s + 1, w); }
  }

  lemma OptStartIs(L: Layout, s: int, b: int)
    requires Sized(L) && L.n + 2 <= b <= s < |L.top|
    requires b == L.n + 2 || L.top[b - 1] <= 0
    requires forall t :: b <= t < s ==> L.top[t] > 0
    ensures OptStart(L, s) == b
    decreases s - b
  {
    if b < s { OptStartIs(L, s - 1, b); }
  }
}
