/** The exact-cover instance handed to `init_solver`, the arena it is laid out
    into, and what counts as a solution.

    Item 0 is a placeholder for the root of the header ring, so an instance with
    |items| names has n = |items| - 1 items, numbered 1 .. n.  A choice (an option)
    is the list of the items it covers.  The arena puts n + 2 zero entries first
    (root, headers, initial spacer) and then, for the r-th choice, its items followed
    by the spacer marker -(r + 1). */
module Problems {
  import opened Layouts
  import opened History

  datatype ExactCover = ExactCover(items: seq<string>, choices: seq<seq<int>>)

  /** Every entry of a choice names one of the items 1 .. n. */
  predicate InItems(row: seq<int>, n: int) {
    forall c :: 0 <= c < |row| ==> 1 <= row[c] <= n
  }

  /** An instance the engine is built for: the placeholder is there, and every
      choice names real items and none twice. */
  predicate WellFormed(e: ExactCover) {
    && |e.items| >= 1
    && (forall r :: 0 <= r < |e.choices| ==> InItems(e.choices[r], |e.items| - 1))
    && (forall r :: 0 <= r < |e.choices| ==> Distinct(e.choices[r]))
  }

  /** The element and spacer entries of the arena: each choice's items, then its marker. */
  function Spread(cs: seq<seq<int>>): seq<int>
    decreases |cs|
  {
    if cs == [] then [] else Spread(cs[..|cs| - 1]) + cs[|cs| - 1] + [-|cs|]
  }

  /** The static arena `init_solver` lays the instance out into. */
  function Arena(e: ExactCover): (L: Layout)
    requires |e.items| >= 1
    ensures L.n == |e.items| - 1 && Sized(L)
    ensures |L.top| == |e.items| + 1 + |Spread(e.choices)|
  {
    Layout(|e.items| - 1, seq(|e.items| + 1, _ => 0) + Spread(e.choices))
  }

  /** Index of the first element node of choice r. */
  function Start(e: ExactCover, r: int): int
    requires 0 <= r <= |e.choices|
  {
    |e.items| + 1 + |Spread(e.choices[..r])|
  }

  /** The solution's choices, numbered from 1, concatenated. */
  function Flatten(e: ExactCover, sol: seq<int>): seq<int>
    decreases |sol|
  {
    if sol == [] then [] else Flatten(e, sol[..|sol| - 1]) + Choice(e, sol[|sol| - 1])
  }

  /** The items of choice number o, counting from 1 (none for a number out of range). */
  function Choice(e: ExactCover, o: int): seq<int> {
    if 1 <= o <= |e.choices| then e.choices[o - 1] else []
  }

  /** Every entry of sol is a choice number, counting from 1. */
  predicate Numbers(e: ExactCover, sol: seq<int>) {
    forall k :: 0 <= k < |sol| ==> 1 <= sol[k] <= |e.choices|
  }

  /** sol numbers choices from 1, and together they cover every item exactly once. */
  predicate IsExactCover(e: ExactCover, sol: seq<int>)
    requires |e.items| >= 1
  {
    && Numbers(e, sol)
    && multiset(Flatten(e, sol)) == multiset(Run(1, |e.items|))
  }

  // ---------------------------------------------------------------------------
  // Where each choice lies

  lemma {:induction false} SpreadPrefix(cs: seq<seq<int>>, k: int)
    requires 0 <= k <= |cs|
    ensures |Spread(cs[..k])| <= |Spread(cs)|
    ensures Spread(cs)[..|Spread(cs[..k])|] == Spread(cs[..k])
    decreases |cs| - k
  {
    if k < |cs| {
      SpreadPrefix(cs, k + 1);
      SpreadLast(cs, k);
    } else {
      assert cs[..k] == cs;
    }
  }

  /** Choice r occupies the entries right after the earlier choices, followed by its marker. */
  lemma SpreadBlock(cs: seq<seq<int>>, r: int)
    requires 0 <= r < |cs|
    ensures var b := |Spread(cs[..r])|;
            && b + |cs[r]| < |Spread(cs)|
            && Spread(cs)[b..b + |cs[r]|] == cs[r]
            && Spread(cs)[b + |cs[r]|] == -(r + 1)
            && |Spread(cs[..r + 1])| == b + |cs[r]| + 1
  {
    SpreadPrefix(cs, r + 1);
    SpreadLast(cs, r);
    PrefixBlock(Spread(cs), Spread(cs[..r]), cs[r], -(r + 1));
  }

  /** The spread of the first r + 1 choices ends with choice r and its marker. */
  lemma SpreadLast(cs: seq<seq<int>>, r: int)
    requires 0 <= r < |cs|
    ensures Spread(cs[..r + 1]) == Spread(cs[..r]) + cs[r] + [-(r + 1)]
  {
    var A := cs[..r + 1];
    assert A[..|A| - 1] == cs[..r];
  }

  lemma PrefixBlock(S: seq<int>, a: seq<int>, m: seq<int>, z: int)
    requires |a| + |m| + 1 <= |S| && S[..|a| + |m| + 1] == a + m + [z]
    ensures S[|a|..|a| + |m|] == m && S[|a| + |m|] == z
  {
    assert S[|a|..|a| + |m|] == S[..|a| + |m| + 1][|a|..|a| + |m|];
    assert (a + m + [z])[|a|..|a| + |m|] == m;
    assert S[|a| + |m|] == S[..|a| + |m| + 1][|a| + |m|];
  }

  /** The entries before choice r end with the marker of choice r - 1. */
  lemma SpreadBefore(cs: seq<seq<int>>, r: int)
    requires 0 < r < |cs|
    ensures 1 <= |Spread(cs[..r])| <= |Spread(cs)| && Spread(cs)[|Spread(cs[..r])| - 1] == -r
  {
    SpreadBlock(cs, r - 1);
  }

  lemma SliceAt(s: seq<int>, i: int, j: int, k: int)
    requires 0 <= i <= j <= |s| && 0 <= k < j - i
    ensures s[i..j][k] == s[i + k]
  {
  }

  /** Every positive entry of the spread lies inside the block of one choice. */
  lemma {:induction false} SpreadOwner(cs: seq<seq<int>>, k: int) returns (r: int)
    requires 0 <= k < |Spread(cs)| && Spread(cs)[k] > 0
    ensures 0 <= r < |cs|
    ensures |Spread(cs[..r])| <= k < |Spread(cs[..r])| + |cs[r]|
    decreases |cs|
  {
    var cs' := cs[..|cs| - 1];
    if k < |Spread(cs')| {
      r := SpreadOwner(cs', k);
      assert cs'[..r] == cs[..r];
    } else {
      r := |cs| - 1;
      assert cs[..r] == cs';
    }
  }

  /** The arena is the zero prefix followed by the spread. */
  lemma ArenaAt(e: ExactCover, k: int)
    requires |e.items| >= 1 && 0 <= k < |Spread(e.choices)|
    ensures Arena(e).top[|e.items| + 1 + k] == Spread(e.choices)[k]
  {
  }

  lemma ArenaZero(e: ExactCover, y: int)
    requires |e.items| >= 1 && 0 <= y <= |e.items|
    ensures Arena(e).top[y] == 0
  {
  }

  /** Choice r sits at Start(e, r) in the arena, followed by its marker, after
      the zero prefix or the previous choice's marker. */
  lemma ArenaBlock(e: ExactCover, r: int)
    requires |e.items| >= 1 && 0 <= r < |e.choices|
    ensures var L, b := Arena(e), Start(e, r);
            && b + |e.choices[r]| < |L.top|
            && (forall t :: b <= t < b + |e.choices[r]| ==> L.top[t] == e.choices[r][t - b])
            && L.top[b + |e.choices[r]|] == -(r + 1)
            && (L.top[b - 1] <= 0 || b == L.n + 2)
  {
    var k, m := |Spread(e.choices[..r])|, |e.choices[r]|;
    SpreadBlock(e.choices, r);
    ArenaElements(e, r);
    ArenaAt(e, k + m);
    if r > 0 {
      SpreadBefore(e.choices, r);
      ArenaAt(e, k - 1);
    } else {
      ArenaZero(e, Start(e, r) - 1);
    }
  }

  /** The element nodes of choice r carry its items, in order. */
  lemma ArenaElements(e: ExactCover, r: int)
    requires |e.items| >= 1 && 0 <= r < |e.choices|
    ensures var L, b := Arena(e), Start(e, r);
            && b + |e.choices[r]| < |L.top|
            && forall t :: b <= t < b + |e.choices[r]| ==> L.top[t] == e.choices[r][t - b]
  {
    var S, z := Spread(e.choices), |e.items| + 1;
    var b, m := Start(e, r), |e.choices[r]|;
    var k := |Spread(e.choices[..r])|;
    SpreadBlock(e.choices, r);
    forall t | b <= t < b + m ensures Arena(e).top[t] == e.choices[r][t - b] {
      ArenaAt(e, t - z);
      SliceAt(S, k, k + m, t - b);
    }
  }

  /** The option of an element node of the arena is one whole choice. */
  lemma ArenaOption(e: ExactCover, y: int) returns (r: int)
    requires WellFormed(e) && IsElement(Arena(e), y)
    ensures 0 <= r < |e.choices|
    ensures var L := Arena(e);
            && OptStart(L, y) == Start(e, r) && OptEnd(L, y) == Start(e, r) + |e.choices[r]|
            && OptEnd(L, y) < |L.top| && L.top[OptEnd(L, y)] == -(r + 1)
            && L.top[OptStart(L, y)..OptEnd(L, y)] == e.choices[r]
  {
    var L := Arena(e);
    var z := |e.items| + 1;
    ArenaAt(e, y - z);
    r := SpreadOwner(e.choices, y - z);
    ArenaBlock(e, r);
    assert InItems(e.choices[r], L.n);
    OptionBlock(L, y, Start(e, r), e.choices[r], -(r + 1));
  }

  /** A block of node entries that copies the row c, closed by spacers or the
      arena's ends on both sides, is the option of each of its nodes. */
  lemma OptionBlock(L: Layout, y: int, b: int, c: seq<int>, m: int)
    requires Sized(L) && L.n + 2 <= b <= y < b + |c| < |L.top| && InItems(c, L.n)
    requires b == L.n + 2 || L.top[b - 1] <= 0
    requires forall t :: b <= t < b + |c| ==> L.top[t] == c[t - b]
    requires L.top[b + |c|] == m <= 0
    ensures OptStart(L, y) == b && OptEnd(L, y) == b + |c|
    ensures OptEnd(L, y) < |L.top| && L.top[OptEnd(L, y)] == m
    ensures L.top[OptStart(L, y)..OptEnd(L, y)] == c
  {
    WallFromIs(L, y, b + |c|);
    OptStartIs(L, y, b);
    assert forall k :: 0 <= k < |c| ==> L.top[b..b + |c|][k] == c[k];
  }

  lemma ArenaEntry(e: ExactCover, y: int)
    requires WellFormed(e) && IsElement(Arena(e), y)
    ensures Arena(e).top[y] <= Arena(e).n
  {
    var L := Arena(e);
    var r := ArenaOption(e, y);
    var b := OptStart(L, y);
    assert L.top[y] == L.top[b..OptEnd(L, y)][y - b];
    assert InItems(e.choices[r], L.n);
  }

  lemma ArenaFramed(e: ExactCover)
    requires |e.items| >= 1
    ensures Framed(Arena(e))
  {
    var L := Arena(e);
    if e.choices != [] {
      ArenaBlock(e, |e.choices| - 1);
      SpreadBlock(e.choices, |e.choices| - 1);
      assert e.choices[..|e.choices|] == e.choices;
    }
  }

  lemma ArenaDistinct(e: ExactCover, y: int, y': int)
    requires WellFormed(e)
    requires var L := Arena(e); L.n + 2 <= y < y' < |L.top| && L.top[y] > 0 && y' < WallFrom(L, y)
    ensures Arena(e).top[y] != Arena(e).top[y']
  {
    var L := Arena(e);
    var r := ArenaOption(e, y);
    var b, c := Start(e, r), e.choices[r];
    ArenaBlock(e, r);
    assert Distinct(c);
    BlockDistinct(L.top, c, b, y, y');
  }

  /** Two entries of a block that copies a sequence without repeats differ. */
  lemma BlockDistinct(top: seq<int>, c: seq<int>, b: int, y: int, y': int)
    requires Distinct(c) && 0 <= b <= y < y' < b + |c| <= |top|
    requires forall t :: b <= t < b + |c| ==> top[t] == c[t - b]
    ensures top[y] != top[y']
  {
    DistinctAt(c, y - b, y' - b);
  }


  /** A well-formed instance lays out into a well-formed arena. */
  lemma ArenaWF(e: ExactCover)
    requires WellFormed(e)
    ensures WF(Arena(e))
  {
    var L := Arena(e);
    forall y | L.n + 2 <= y < |L.top| ensures L.top[y] <= L.n {
      if L.top[y] > 0 {
        ArenaEntry(e, y);
      }
    }
    ArenaFramed(e);
    forall y, y' ensures ItemsApart(L, y, y') {
      if L.n + 2 <= y < y' < |L.top| && L.top[y] > 0 && y' < WallFrom(L, y) {
        ArenaDistinct(e, y, y');
      }
    }
  }
}
