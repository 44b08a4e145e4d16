/** Decomposition and iteration of POSIX pathnames (the non-Windows branches of path.cpp). */
module PosixPath {

  predicate IsSep(c: char) { c == '/' }

  const NPOS := -1

  /** find_first_of(separators, from); the length of s stands for npos. */
  function FirstSep(s: string, from: nat): (r: nat)
    requires from <= |s|
    ensures from <= r <= |s|
    ensures forall k :: from <= k < r ==> !IsSep(s[k])
    ensures r < |s| ==> IsSep(s[r])
    decreases |s| - from
  {
    if from == |s| || IsSep(s[from]) then from else FirstSep(s, from + 1)
  }

  /** find_last_of(separators) among the first `end` characters, or NPOS. */
  function LastSep(s: string, end: nat): (r: int)
    requires end <= |s|
    ensures NPOS <= r < end
    ensures forall k :: r < k < end ==> !IsSep(s[k])
    ensures r >= 0 ==> IsSep(s[r])
  {
    if end == 0 then NPOS else if IsSep(s[end - 1]) then end - 1 else LastSep(s, end - 1)
  }

  /** The first position from `from` on that is no separator. */
  function SkipSeps(s: string, from: nat): (r: nat)
    requires from <= |s|
    ensures from <= r <= |s|
    ensures forall k :: from <= k < r ==> IsSep(s[k])
    ensures r < |s| ==> !IsSep(s[r])
    decreases |s| - from
  {
    if from == |s| || !IsSep(s[from]) then from else SkipSeps(s, from + 1)
  }

  /** The leftmost separator of the group of separators that ends at pos. */
  function LeftmostSep(s: string, pos: nat): (r: nat)
    requires pos < |s| && IsSep(s[pos])
    ensures r <= pos
    ensures forall k :: r <= k <= pos ==> IsSep(s[k])
    ensures r > 0 ==> !IsSep(s[r - 1])
  {
    if pos > 0 && IsSep(s[pos - 1]) then LeftmostSep(s, pos - 1) else pos
  }

  /** Back over separators, but not over the root directory. */
  function SkipBack(s: string, end: nat, root: int): (r: nat)
    requires end <= |s|
    ensures r <= end
    ensures forall k :: r <= k < end ==> IsSep(s[k]) && k != root
    ensures r > 0 ==> !IsSep(s[r - 1]) || r - 1 == root
  {
    if end > 0 && end - 1 != root && IsSep(s[end - 1]) then SkipBack(s, end - 1, root) else end
  }

  // ----- the helpers of the source, as values -----

  function IsRootSeparator(s: string, pos: nat): bool
    requires pos < |s| && IsSep(s[pos])
  {
    var left := LeftmostSep(s, pos);
    left == 0 || (left >= 3 && IsSep(s[0]) && IsSep(s[1]) && FirstSep(s, 2) == left)
  }

  function FilenamePos(s: string, end: nat): (r: nat)
    requires end <= |s|
    ensures r <= |s|
  {
    if end == 2 && IsSep(s[0]) && IsSep(s[1]) then 0
    else if end > 0 && IsSep(s[end - 1]) then end - 1
    else
      // end - 1 wraps to npos when end is 0, and find_last_of then searches all of s
      var pos := LastSep(s, if end == 0 then |s| else end);
      if pos == NPOS || (pos == 1 && IsSep(s[0])) then 0 else pos + 1
  }

  function RootDirectoryStart(s: string, size: nat): int
    requires size <= |s|
  {
    if size == 2 && IsSep(s[0]) && IsSep(s[1]) then NPOS
    else if size > 3 && IsSep(s[0]) && IsSep(s[1]) && !IsSep(s[2]) then
      var pos := FirstSep(s, 2);
      if pos < size then pos else NPOS
    else if size > 0 && IsSep(s[0]) then 0
    else NPOS
  }

  /** Exactly two leading separators: a network name, or the path "//". */
  predicate IsNet(s: string) {
    |s| >= 2 && IsSep(s[0]) && IsSep(s[1]) && (|s| == 2 || !IsSep(s[2]))
  }

  /** Position and size of the first element. */
  function FirstElement(s: string): (nat, nat) {
    if s == "" then (0, 0)
    else if IsNet(s) then (0, FirstSep(s, 2))
    else if IsSep(s[0]) then (SkipSeps(s, 0) - 1, 1)
    else (0, FirstSep(s, 0))
  }

  // ----- iterators -----

  datatype Iterator = Iterator(pos: nat, element: string)

  function Begin(p: string): (it: Iterator)
    ensures it.pos + |it.element| <= |p|
  {
    var (pos, size) := FirstElement(p);
    Iterator(pos, p[pos..pos + size])
  }

  function End(p: string): Iterator {
    Iterator(|p|, "")
  }

  /** What operator++ may be applied to: an iterator that is not past the end. */
  predicate InRange(p: string, it: Iterator) {
    it.pos < |p| && it.pos + |it.element| <= |p|
  }

  function Increment(p: string, it: Iterator): (r: Iterator)
    requires InRange(p, it)
    ensures r.pos <= |p|
  {
    var pos := it.pos + |it.element|;
    var wasNet := |it.element| > 2 && IsSep(it.element[0]) && IsSep(it.element[1]) && !IsSep(it.element[2]);
    if pos == |p| then End(p)
    else if IsSep(p[pos]) && wasNet then Iterator(pos, "/")
    else
      var start := SkipSeps(p, pos);
      if start == |p| && !IsRootSeparator(p, start - 1) then Iterator(start - 1, ".")
      else Iterator(start, p[start..FirstSep(p, start)])
  }

  function Decrement(p: string, it: Iterator): Iterator
    requires 0 < it.pos <= |p|
  {
    if it.pos == |p| && |p| > 1 && IsSep(p[|p| - 1]) && !IsRootSeparator(p, |p| - 1) then
      Iterator(|p| - 1, ".")
    else
      var end := SkipBack(p, it.pos, RootDirectoryStart(p, it.pos));
      var pos := FilenamePos(p, end);
      // substr(pos, end - pos): a count that wraps below zero means all the rest
      Iterator(pos, if pos <= end then p[pos..end] else p[pos..])
  }

  // ----- the elements of a path, by its own structure -----

  /** s starts with a name; the walk stands at offset `at` of the whole path. */
  function NameWalk(s: string, at: nat): (w: seq<Iterator>)
    requires s != "" && !IsSep(s[0])
    decreases |s|, 0
  {
    var e := FirstSep(s, 0);
    [Iterator(at, s[..e])] + TailWalk(s[e..], at + e)
  }

  /** What follows a name: nothing, a trailing separator read as ".", or the next name. */
  function TailWalk(s: string, at: nat): seq<Iterator>
    requires s == "" || IsSep(s[0])
    decreases |s|, 1
  {
    if s == "" then []
    else
      var k := SkipSeps(s, 0);
      if k == |s| then [Iterator(at + k - 1, ".")] else NameWalk(s[k..], at + k)
  }

  /** What follows the root directory. */
  function RelativeWalk(s: string, at: nat): seq<Iterator>
    requires s == "" || !IsSep(s[0])
  {
    if s == "" then [] else NameWalk(s, at)
  }

  function Walk(p: string): seq<Iterator> {
    if p == "" then []
    else if IsNet(p) then
      var e := FirstSep(p, 2);
      [Iterator(0, p[..e])] + NetTailWalk(p[e..], e)
    else if IsSep(p[0]) then
      var k := SkipSeps(p, 0);
      [Iterator(k - 1, "/")] + RelativeWalk(p[k..], k)
    else NameWalk(p, 0)
  }

  function NetTailWalk(s: string, at: nat): seq<Iterator>
    requires s == "" || IsSep(s[0])
  {
    if s == "" then []
    else
      var k := SkipSeps(s, 0);
      [Iterator(at, "/")] + RelativeWalk(s[k..], at + k)
  }

  // ----- searching in a suffix -----

  lemma FirstSepIs(s: string, from: nat, r: nat)
    requires from <= r <= |s|
    requires forall k :: from <= k < r ==> !IsSep(s[k])
    requires r < |s| ==> IsSep(s[r])
    ensures FirstSep(s, from) == r
  {
    var f := FirstSep(s, from);
    assert f >= r;
    assert r >= f;
  }

  lemma SkipSepsIs(s: string, from: nat, r: nat)
    requires from <= r <= |s|
    requires forall k :: from <= k < r ==> IsSep(s[k])
    requires r < |s| ==> !IsSep(s[r])
    ensures SkipSeps(s, from) == r
  {
    var f := SkipSeps(s, from);
    assert f >= r;
    assert r >= f;
  }

  lemma SearchSuffix(s: string, i: nat)
    requires i <= |s|
    ensures i + FirstSep(s[i..], 0) == FirstSep(s, i)
    ensures i + SkipSeps(s[i..], 0) == SkipSeps(s, i)
  {
    FirstSepIs(s, i, i + FirstSep(s[i..], 0));
    SkipSepsIs(s, i, i + SkipSeps(s[i..], 0));
  }

  // ----- stepping forward and back over one element -----

  /** A name of p begins at i. */
  ghost predicate NameAt(p: string, i: nat) {
    && i < |p| && !IsSep(p[i])
    && (i == 0 || IsSep(p[i - 1]))
    && (IsNet(p) ==> FirstSep(p, 2) < i)
  }

  function Name(p: string, i: nat): Iterator
    requires i <= |p|
  {
    Iterator(i, p[i..FirstSep(p, i)])
  }

  /** The iterator that follows the name at i. */
  ghost function AfterName(p: string, i: nat): Iterator
    requires i <= |p|
  {
    var e := FirstSep(p, i);
    var k := SkipSeps(p, e);
    if e == |p| then End(p) else if k == |p| then Iterator(|p| - 1, ".") else Name(p, k)
  }

  lemma LeftmostSepIs(s: string, pos: nat, r: nat)
    requires r <= pos < |s| && (forall k :: r <= k <= pos ==> IsSep(s[k])) && (r > 0 ==> !IsSep(s[r - 1]))
    ensures LeftmostSep(s, pos) == r
  {
    var f := LeftmostSep(s, pos);
    assert f >= r;
    assert r >= f;
  }

  lemma SkipBackIs(s: string, end: nat, root: int, r: nat)
    requires r <= end <= |s|
    requires forall k :: r <= k < end ==> IsSep(s[k]) && k != root
    requires r > 0 ==> !IsSep(s[r - 1]) || r - 1 == root
    ensures SkipBack(s, end, root) == r
  {
    var f := SkipBack(s, end, root);
    assert f >= r;
    assert r >= f;
  }

  /** The separators after a name inside the path are no root directory. */
  lemma NotRootAfterName(p: string, i: nat)
    requires NameAt(p, i) && FirstSep(p, i) < |p| && SkipSeps(p, FirstSep(p, i)) == |p|
    ensures !IsRootSeparator(p, |p| - 1)
  {
    var e := FirstSep(p, i);
    LeftmostSepIs(p, |p| - 1, e);
  }

  lemma IncrementName(p: string, i: nat)
    requires NameAt(p, i)
    ensures Steps(p, Name(p, i), AfterName(p, i))
  {
    var e := FirstSep(p, i);
    var element := p[i..e];
    assert forall k :: 0 <= k < |element| ==> element[k] == p[i + k];
    if e < |p| && SkipSeps(p, e) == |p| {
      NotRootAfterName(p, i);
    }
  }

  lemma FilenamePosOfName(p: string, i: nat)
    requires NameAt(p, i)
    ensures FilenamePos(p, FirstSep(p, i)) == i
  {
    var e := FirstSep(p, i);
    var last := LastSep(p, e);
    assert !IsSep(p[e - 1]);
    assert last < i;
    assert i > 0 ==> last >= i - 1;
    assert i == 2 && IsSep(p[0]) ==> IsNet(p);
  }

  /** Back from position `from` over the separators behind the name at i. */
  lemma SkipBackToName(p: string, i: nat, from: nat)
    requires NameAt(p, i) && FirstSep(p, i) <= from <= SkipSeps(p, FirstSep(p, i))
    ensures SkipBack(p, from, RootDirectoryStart(p, from)) == FirstSep(p, i)
  {
    var e := FirstSep(p, i);
    var root := RootDirectoryStart(p, from);
    assert !IsSep(p[e - 1]);
    assert root < e;
    SkipBackIs(p, from, root, e);
  }

  lemma DecrementToName(p: string, i: nat)
    requires NameAt(p, i)
    ensures StepsBack(p, Name(p, i), AfterName(p, i))
  {
    var e := FirstSep(p, i);
    var next := AfterName(p, i);
    assert !IsSep(p[e - 1]);
    if e < |p| && SkipSeps(p, e) == |p| {
      NotRootAfterName(p, i);
    }
    SkipBackToName(p, i, next.pos);
    FilenamePosOfName(p, i);
  }

  // ----- whole walks -----

  function Successor(p: string, w: seq<Iterator>, k: nat): Iterator
    requires k < |w|
  {
    if k + 1 < |w| then w[k + 1] else End(p)
  }

  /** Incrementing a gives b, further along. */
  predicate Steps(p: string, a: Iterator, b: Iterator) {
    InRange(p, a) && Increment(p, a) == b && a.pos < b.pos
  }

  /** Decrementing b gives a. */
  predicate StepsBack(p: string, a: Iterator, b: Iterator) {
    0 < b.pos <= |p| && Decrement(p, b) == a
  }

  /** Stepping forward goes through w, at strictly increasing positions, and then reaches the end. */
  ghost predicate Forward(p: string, w: seq<Iterator>) {
    forall k :: 0 <= k < |w| ==> Steps(p, w[k], Successor(p, w, k))
  }

  ghost predicate Backward(p: string, w: seq<Iterator>) {
    forall k :: 0 <= k < |w| ==> StepsBack(p, w[k], Successor(p, w, k))
  }

  function FirstOf(p: string, w: seq<Iterator>): Iterator {
    if w == [] then End(p) else w[0]
  }

  lemma ForwardCons(p: string, a: Iterator, w: seq<Iterator>)
    requires Steps(p, a, FirstOf(p, w)) && Forward(p, w)
    ensures Forward(p, [a] + w)
  {
    hide Steps;
    var all := [a] + w;
    forall k | 0 <= k < |all|
      ensures Steps(p, all[k], Successor(p, all, k))
    {
      if k > 0 {
        assert all[k] == w[k - 1] && Successor(p, all, k) == Successor(p, w, k - 1);
      }
    }
  }

  lemma BackwardCons(p: string, a: Iterator, w: seq<Iterator>)
    requires StepsBack(p, a, FirstOf(p, w)) && Backward(p, w)
    ensures Backward(p, [a] + w)
  {
    hide StepsBack;
    var all := [a] + w;
    forall k | 0 <= k < |all|
      ensures StepsBack(p, all[k], Successor(p, all, k))
    {
      if k > 0 {
        assert all[k] == w[k - 1] && Successor(p, all, k) == Successor(p, w, k - 1);
      }
    }
  }

  lemma NextNameAt(p: string, i: nat)
    requires NameAt(p, i) && SkipSeps(p, FirstSep(p, i)) < |p|
    ensures NameAt(p, SkipSeps(p, FirstSep(p, i)))
  {
  }

  /** The dot that stands for a trailing separator. */
  lemma DotRuns(p: string, i: nat)
    requires NameAt(p, i) && FirstSep(p, i) < |p| && SkipSeps(p, FirstSep(p, i)) == |p|
    ensures Forward(p, [Iterator(|p| - 1, ".")]) && Backward(p, [Iterator(|p| - 1, ".")])
  {
    NotRootAfterName(p, i);
  }

  lemma {:induction false} NameWalkRuns(p: string, i: nat)
    requires NameAt(p, i)
    ensures var w := NameWalk(p[i..], i);
            w[0] == Name(p, i) && Forward(p, w) && Backward(p, w)
    decreases |p| - i
  {
    hide Steps, StepsBack;
    IncrementName(p, i);
    DecrementToName(p, i);
    var e := FirstSep(p, i);
    TailWalkOfName(p, i);
    var w := TailWalk(p[e..], e);
    if e < |p| {
      var k := SkipSeps(p, e);
      if k == |p| {
        DotRuns(p, i);
      } else {
        NextNameAt(p, i);
        NameWalkRuns(p, k);
      }
    }
    ForwardCons(p, Name(p, i), w);
    BackwardCons(p, Name(p, i), w);
  }

  lemma Slices(p: string, i: nat, j: nat)
    requires i <= j <= |p|
    ensures p[i..][..j - i] == p[i..j]
    ensures p[i..][j - i..] == p[j..]
  {
  }

  lemma NameWalkAt(p: string, i: nat)
    requires i < |p| && !IsSep(p[i])
    ensures NameWalk(p[i..], i) == [Name(p, i)] + TailWalk(p[FirstSep(p, i)..], FirstSep(p, i))
  {
    hide TailWalk, FirstSep, SkipSeps;
    SearchSuffix(p, i);
    Slices(p, i, FirstSep(p, i));
  }

  lemma TailWalkAt(p: string, e: nat)
    requires e < |p| && IsSep(p[e])
    ensures var k := SkipSeps(p, e);
            TailWalk(p[e..], e) == if k == |p| then [Iterator(|p| - 1, ".")] else NameWalk(p[k..], k)
  {
    hide NameWalk, FirstSep, SkipSeps;
    SearchSuffix(p, e);
    Slices(p, e, SkipSeps(p, e));
  }

  lemma TailWalkOfName(p: string, i: nat)
    requires NameAt(p, i)
    ensures var e := FirstSep(p, i);
            var k := SkipSeps(p, e);
            && NameWalk(p[i..], i) == [Name(p, i)] + TailWalk(p[e..], e)
            && (e == |p| ==> TailWalk(p[e..], e) == [])
            && (e < |p| && k == |p| ==> TailWalk(p[e..], e) == [Iterator(|p| - 1, ".")])
            && (k < |p| ==> TailWalk(p[e..], e) == NameWalk(p[k..], k))
  {
    var e := FirstSep(p, i);
    NameWalkAt(p, i);
    if e < |p| {
      TailWalkAt(p, e);
    }
    hide NameWalk, TailWalk;
  }

  /** What follows the root directory whose separators end at k. */
  ghost function AfterRoot(p: string, k: nat): Iterator
    requires k <= |p|
  {
    if k == |p| then End(p) else Name(p, k)
  }

  lemma RelativeWalkRuns(p: string, k: nat)
    requires k <= |p| && (k < |p| ==> NameAt(p, k))
    ensures var w := RelativeWalk(p[k..], k);
            && FirstOf(p, w) == AfterRoot(p, k)
            && Forward(p, w) && Backward(p, w)
  {
    if k < |p| {
      NameWalkRuns(p, k);
    }
  }

  lemma NetRootSteps(p: string)
    requires IsNet(p) && FirstSep(p, 2) < |p|
    ensures var e := FirstSep(p, 2);
            var k := SkipSeps(p, e);
            && (k < |p| ==> NameAt(p, k))
            && Steps(p, Iterator(e, "/"), AfterRoot(p, k))
            && StepsBack(p, Iterator(e, "/"), AfterRoot(p, k))
  {
    NetRootForward(p);
    NetRootBackward(p);
  }

  lemma NetRootForward(p: string)
    requires IsNet(p) && FirstSep(p, 2) < |p|
    ensures var e := FirstSep(p, 2);
            Steps(p, Iterator(e, "/"), AfterRoot(p, SkipSeps(p, e)))
  {
    var e := FirstSep(p, 2);
    var k := SkipSeps(p, e);
    SkipSepsIs(p, e + 1, k);
    if k == |p| {
      LeftmostSepIs(p, |p| - 1, e);
    }
  }

  lemma NetRootBackward(p: string)
    requires IsNet(p) && FirstSep(p, 2) < |p|
    ensures var e := FirstSep(p, 2);
            StepsBack(p, Iterator(e, "/"), AfterRoot(p, SkipSeps(p, e)))
  {
    var e := FirstSep(p, 2);
    var k := SkipSeps(p, e);
    if k == |p| {
      LeftmostSepIs(p, |p| - 1, e);
    }
    assert RootDirectoryStart(p, k) == e;
    SkipBackIs(p, k, e, e + 1);
    assert FilenamePos(p, e + 1) == e;
    assert p[e..e + 1] == "/";
  }

  lemma NetNameForward(p: string)
    requires IsNet(p)
    ensures var e := FirstSep(p, 2);
            && Begin(p) == Iterator(0, p[..e])
            && Steps(p, Begin(p), if e == |p| then End(p) else Iterator(e, "/"))
  {
    var e := FirstSep(p, 2);
    assert e < |p| ==> p[..e][2] == p[2];
  }

  lemma NetNameBackward(p: string)
    requires IsNet(p)
    ensures var e := FirstSep(p, 2);
            var b := if e == |p| then End(p) else Iterator(e, "/");
            && b.pos > 0
            && Decrement(p, b) == Iterator(0, if p == "//" then "" else p[..e])
  {
    var e := FirstSep(p, 2);
    if |p| == 2 {
      assert p == "//";
      LeftmostSepIs(p, 1, 0);
      SkipBackIs(p, 2, NPOS, 0);
    } else {
      assert !IsSep(p[e - 1]);
      SkipBackIs(p, e, RootDirectoryStart(p, e), e);
      NetFilenamePos(p);
    }
  }

  lemma NetFilenamePos(p: string)
    requires IsNet(p) && |p| > 2
    ensures FilenamePos(p, FirstSep(p, 2)) == 0
  {
    var last := LastSep(p, FirstSep(p, 2));
    assert last >= 1;
    assert last < 2;
  }

  lemma RootForward(p: string)
    requires p != "" && IsSep(p[0]) && !IsNet(p)
    ensures var k := SkipSeps(p, 0);
            && (k < |p| ==> NameAt(p, k))
            && (k == 1 || 3 <= k)
            && Begin(p) == Iterator(k - 1, "/")
            && Steps(p, Begin(p), AfterRoot(p, k))
  {
    var k := SkipSeps(p, 0);
    assert p[k - 1..k] == "/";
    assert k != 2;
    RootIncrement(p, k);
  }

  lemma RootIncrement(p: string, k: nat)
    requires 1 <= k <= |p| && (forall i :: 0 <= i < k ==> IsSep(p[i])) && (k < |p| ==> !IsSep(p[k]))
    ensures Steps(p, Iterator(k - 1, "/"), AfterRoot(p, k))
  {
    SkipSepsIs(p, k, k);
    if k == |p| {
      LeftmostSepIs(p, |p| - 1, 0);
    }
  }

  lemma RootBackward(p: string)
    requires p != "" && IsSep(p[0]) && !IsNet(p)
    ensures StepsBack(p, Iterator(0, "/"), AfterRoot(p, SkipSeps(p, 0)))
  {
    var k := SkipSeps(p, 0);
    if k == |p| {
      LeftmostSepIs(p, |p| - 1, 0);
    }
    assert k != 2;
    assert RootDirectoryStart(p, k) == 0;
    SkipBackIs(p, k, 0, 1);
    assert FilenamePos(p, 1) == 0;
    assert p[0..1] == "/";
  }

  lemma NetTailWalkAt(p: string, e: nat)
    requires e < |p| && IsSep(p[e])
    ensures var k := SkipSeps(p, e);
            NetTailWalk(p[e..], e) == [Iterator(e, "/")] + RelativeWalk(p[k..], k)
  {
    hide RelativeWalk, NetTailWalk;
    var s, k := p[e..], SkipSeps(p, e);
    NetTailWalkUnfolds(s, e);
    SearchSuffix(p, e);
    assert s[k - e..] == p[k..];
  }

  lemma NetTailWalkUnfolds(s: string, at: nat)
    requires s != "" && IsSep(s[0])
    ensures var k := SkipSeps(s, 0);
            NetTailWalk(s, at) == [Iterator(at, "/")] + RelativeWalk(s[k..], at + k)
  {
  }

  lemma NetWalkIs(p: string)
    requires IsNet(p)
    ensures var e := FirstSep(p, 2);
            var k := SkipSeps(p, e);
            Walk(p) == [Begin(p)] + if e == |p| then [] else [Iterator(e, "/")] + RelativeWalk(p[k..], k)
  {
    var e := FirstSep(p, 2);
    if e < |p| {
      NetTailWalkAt(p, e);
    }
    hide NetTailWalk, RelativeWalk, FirstSep, SkipSeps;
    assert Walk(p) == [Iterator(0, p[..e])] + NetTailWalk(p[e..], e);
  }

  /** What stepping back from the second place of a walk gives. */
  function BackToFirst(p: string): Iterator {
    Iterator(0, if p == "//" then "" else Begin(p).element)
  }

  /** w starts at begin(), is what operator++ goes through, and operator-- goes back through it,
      up to the first place, where it gives BackToFirst. */
  ghost predicate Iterates(p: string, w: seq<Iterator>) {
    && w != [] && w[0] == Begin(p)
    && Forward(p, w) && Backward(p, w[1..])
    && StepsBack(p, BackToFirst(p), FirstOf(p, w[1..]))
  }

  lemma NetBack(p: string)
    requires IsNet(p)
    ensures var e := FirstSep(p, 2);
            StepsBack(p, BackToFirst(p), if e == |p| then End(p) else Iterator(e, "/"))
  {
    NetNameBackward(p);
  }

  lemma NetIterates(p: string)
    requires IsNet(p)
    ensures Iterates(p, Walk(p))
  {
    hide Steps, StepsBack, NameWalk, RelativeWalk, NameAt, Increment, Decrement, Walk, Begin;
    var e := FirstSep(p, 2);
    NetWalkIs(p);
    NetNameForward(p);
    var w := Walk(p)[1..];
    if e < |p| {
      var k := SkipSeps(p, e);
      NetRootSteps(p);
      RelativeWalkRuns(p, k);
      ForwardCons(p, Iterator(e, "/"), RelativeWalk(p[k..], k));
      BackwardCons(p, Iterator(e, "/"), RelativeWalk(p[k..], k));
      assert w == [Iterator(e, "/")] + RelativeWalk(p[k..], k);
    } else {
      assert w == [];
    }
    ForwardCons(p, Begin(p), w);
    assert Walk(p) == [Begin(p)] + w;
    NetBack(p);
  }

  lemma RootIterates(p: string)
    requires p != "" && IsSep(p[0]) && !IsNet(p)
    ensures Iterates(p, Walk(p))
  {
    hide Steps, StepsBack, NameWalk, RelativeWalk, NameAt, Increment, Decrement;
    var k := SkipSeps(p, 0);
    var w := RelativeWalk(p[k..], k);
    RootForward(p);
    RootBackward(p);
    RelativeWalkRuns(p, k);
    ForwardCons(p, Begin(p), w);
    assert Walk(p)[1..] == w;
  }

  lemma NameIterates(p: string)
    requires p != "" && !IsSep(p[0])
    ensures Iterates(p, Walk(p))
  {
    assert p[0..] == p;
    assert NameAt(p, 0);
    NameWalkRuns(p, 0);
    hide Steps, StepsBack, NameWalk, NameAt, Increment, Decrement;
    var w := NameWalk(p, 0);
    assert Walk(p) == w && Name(p, 0) == Begin(p);
    BackwardTail(p, w);
  }

  lemma BackwardTail(p: string, w: seq<Iterator>)
    requires w != [] && Backward(p, w)
    ensures Backward(p, w[1..]) && StepsBack(p, w[0], FirstOf(p, w[1..]))
  {
    hide StepsBack;
    assert StepsBack(p, w[0], Successor(p, w, 0));
    forall k | 0 <= k < |w[1..]|
      ensures StepsBack(p, w[1..][k], Successor(p, w[1..], k))
    {
      assert StepsBack(p, w[k + 1], Successor(p, w, k + 1));
    }
  }

  lemma WalkIterates(p: string)
    requires p != ""
    ensures Iterates(p, Walk(p))
  {
    if IsNet(p) {
      NetIterates(p);
    } else if IsSep(p[0]) {
      RootIterates(p);
    } else {
      NameIterates(p);
    }
  }

  predicate ManyLeadingSeps(p: string) {
    |p| >= 3 && IsSep(p[0]) && IsSep(p[1]) && IsSep(p[2])
  }

  lemma FirstPlace(p: string)
    requires p != ""
    ensures Begin(p) == BackToFirst(p) <==> p != "//" && !ManyLeadingSeps(p)
  {
    if IsNet(p) {
      NetNameForward(p);
    } else if IsSep(p[0]) {
      RootForward(p);
    }
  }

  // ----- the theorems on iterators -----

  /** Forward iteration visits Walk(p) and stops at the end, moving strictly forward at every step. */
  lemma IncrementFollowsWalk(p: string, k: nat)
    requires k < |Walk(p)|
    ensures Walk(p)[0] == Begin(p)
    ensures InRange(p, Walk(p)[k])
    ensures Increment(p, Walk(p)[k]) == Successor(p, Walk(p), k)
    ensures Walk(p)[k].pos < Increment(p, Walk(p)[k]).pos
  {
    WalkIterates(p);
    hide Walk, Increment;
    assert Steps(p, Walk(p)[k], Successor(p, Walk(p), k));
  }

  /** Stepping forward from any place of the walk and back again returns to it, except from the first
      place of "//" and of paths with three or more leading separators; only "//" loses the element. */
  lemma DecrementUndoesIncrement(p: string, k: nat)
    requires k < |Walk(p)|
    ensures var it := Walk(p)[k];
            && InRange(p, it)
            && 0 < Increment(p, it).pos
            && var back := Decrement(p, Increment(p, it));
               && (back == it <==> !(k == 0 && (p == "//" || ManyLeadingSeps(p))))
               && (back.element == it.element <==> !(k == 0 && p == "//"))
               && (back != it ==> back == Iterator(0, if p == "//" then "" else "/"))
  {
    WalkIterates(p);
    IncrementFollowsWalk(p, k);
    hide Walk, Increment, Decrement, Begin, RootDirectoryStart;
    var w := Walk(p);
    if k == 0 {
      FirstPlace(p);
      BeginNotEmpty(p);
      assert FirstOf(p, w[1..]) == Successor(p, w, 0);
    } else {
      assert StepsBack(p, w[1..][k - 1], Successor(p, w[1..], k - 1));
      assert Successor(p, w[1..], k - 1) == Successor(p, w, k);
    }
  }

  lemma BeginNotEmpty(p: string)
    requires p != ""
    ensures Begin(p).element != ""
  {
  }
}
