/** The path object and its iterator as the source has them: fields edited in place, loops over characters. */
module PathObjects {
  import opened PosixPath
  import opened PathParts

  /** first_element, which sets position and size of the first element by scanning. */
  method ScanFirstElement(src: string) returns (pos: nat, size: nat)
    ensures (pos, size) == FirstElement(src)
  {
    pos, size := 0, 0;
    if src == "" {
      return;
    }
    var cur := 0;
    if |src| >= 2 && IsSep(src[0]) && IsSep(src[1]) && (|src| == 2 || !IsSep(src[2])) {
      cur, size := 2, 2;
    } else if IsSep(src[0]) {
      size := 1;
      while cur + 1 < |src| && IsSep(src[cur + 1])
        invariant cur < |src| && pos == cur && size == 1
        invariant forall k :: 0 <= k <= cur ==> IsSep(src[k])
      {
        cur, pos := cur + 1, pos + 1;
      }
      SkipSepsIs(src, 0, cur + 1);
      return;
    }
    ghost var from := cur;
    while cur < |src| && !IsSep(src[cur])
      invariant from <= cur <= |src| && size == cur && pos == 0
      invariant forall k :: from <= k < cur ==> !IsSep(src[k])
    {
      cur, size := cur + 1, size + 1;
    }
    FirstSepIs(src, from, cur);
  }

  /** is_root_separator, which walks left to the first separator of the group. */
  method ScanRootSeparator(str: string, at: nat) returns (root: bool)
    requires at < |str| && IsSep(str[at])
    ensures root == IsRootSeparator(str, at)
  {
    var pos := at;
    while pos > 0 && IsSep(str[pos - 1])
      invariant 0 <= pos <= at
      invariant forall k :: pos <= k <= at ==> IsSep(str[k])
    {
      pos := pos - 1;
    }
    LeftmostSepIs(str, at, pos);
    if pos == 0 {
      return true;
    }
    if pos < 3 || !IsSep(str[0]) || !IsSep(str[1]) {
      return false;
    }
    return FirstSep(str, 2) == pos;
  }

  /** m_parent_path_end, with NPOS for npos. */
  method ScanParentPathEnd(pathname: string) returns (r: int)
    ensures r == ParentPathEnd(pathname)
  {
    var end := FilenamePos(pathname, |pathname|);
    var filenameWasSep := pathname != "" && end < |pathname| && IsSep(pathname[end]);
    var rootDir := RootDirectoryStart(pathname, end);
    ghost var from := end;
    while end > 0 && end - 1 != rootDir && IsSep(pathname[end - 1])
      invariant 0 <= end <= from
      invariant forall k :: end <= k < from ==> IsSep(pathname[k]) && k != rootDir
    {
      end := end - 1;
    }
    SkipBackIs(pathname, from, rootDir, end);
    return if end == 1 && rootDir == 0 && filenameWasSep then NPOS else end;
  }

  class PathIterator {
    const path: string
    var pos: nat
    var element: string

    ghost function View(): Iterator
      reads this
    {
      Iterator(pos, element)
    }

    /** path::begin */
    constructor (p: string)
      ensures path == p && View() == PosixPath.Begin(p)
    {
      var first, size := ScanFirstElement(p);
      path, pos, element := p, first, p[first..first + size];
    }

    /** m_path_iterator_increment */
    method Increment()
      requires InRange(path, View())
      modifies this
      ensures View() == PosixPath.Increment(path, old(View()))
    {
      pos := pos + |element|;
      if pos == |path| {
        element := "";
        return;
      }
      var wasNet := |element| > 2 && IsSep(element[0]) && IsSep(element[1]) && !IsSep(element[2]);
      if IsSep(path[pos]) {
        if wasNet {
          element := "/";
          return;
        }
        ghost var from := pos;
        while pos != |path| && IsSep(path[pos])
          invariant from <= pos <= |path|
          invariant forall k :: from <= k < pos ==> IsSep(path[k])
          decreases |path| - pos
        {
          pos := pos + 1;
        }
        SkipSepsIs(path, from, pos);
        if pos == |path| {
          var root := ScanRootSeparator(path, pos - 1);
          if !root {
            pos, element := pos - 1, ".";
            return;
          }
        }
      }
      var end := FirstSep(path, pos);
      element := path[pos..end];
    }

    /** m_path_iterator_decrement */
    method Decrement()
      requires 0 < pos <= |path|
      modifies this
      ensures View() == PosixPath.Decrement(path, old(View()))
    {
      var end := pos;
      if pos == |path| && |path| > 1 && IsSep(path[pos - 1]) {
        var root := ScanRootSeparator(path, pos - 1);
        if !root {
          pos, element := pos - 1, ".";
          return;
        }
      }
      var rootDir := RootDirectoryStart(path, end);
      while end > 0 && end - 1 != rootDir && IsSep(path[end - 1])
        invariant 0 <= end <= pos
        invariant forall k :: end <= k < pos ==> IsSep(path[k]) && k != rootDir
      {
        end := end - 1;
      }
      SkipBackIs(path, pos, rootDir, end);
      pos := FilenamePos(path, end);
      element := if pos <= end then path[pos..end] else path[pos..];
    }
  }

  // ----- comparing paths -----

  /** operator< of strings. */
  predicate Less(a: string, b: string) {
    b != "" && (a == "" || a[0] < b[0] || (a[0] == b[0] && Less(a[1..], b[1..])))
  }

  lemma {:induction false} LessIsTotal(a: string, b: string)
    ensures !(Less(a, b) && Less(b, a))
    ensures !Less(a, b) && !Less(b, a) <==> a == b
  {
    if a != "" && b != "" && a[0] == b[0] {
      LessIsTotal(a[1..], b[1..]);
      assert a == b <==> a[1..] == b[1..] by {
        assert a == [a[0]] + a[1..] && b == [b[0]] + b[1..];
      }
    }
  }

  /** a comes before b: it is a proper prefix, or smaller where the two first differ. */
  predicate Before(a: string, b: string, k: nat) {
    k <= |a| && k < |b| && a[..k] == b[..k] && (k == |a| || a[k] < b[k])
  }

  lemma {:induction false} LessIsFirstDifference(a: string, b: string)
    ensures Less(a, b) <==> exists k: nat :: Before(a, b, k)
  {
    if a == "" && b != "" {
      assert Before(a, b, 0);
    } else if a != "" && b != "" {
      LessIsFirstDifference(a[1..], b[1..]);
      LessShifts(a, b);
    }
  }

  lemma LessShifts(a: string, b: string)
    requires a != "" && b != ""
    ensures (exists k: nat :: Before(a, b, k)) <==>
            a[0] < b[0] || (a[0] == b[0] && exists k: nat :: Before(a[1..], b[1..], k))
  {
    if k: nat :| Before(a, b, k) {
      if k > 0 {
        assert a[0] == a[..k][0] == b[..k][0] == b[0];
        assert a[1..][..k - 1] == a[..k][1..] && b[1..][..k - 1] == b[..k][1..];
        assert Before(a[1..], b[1..], k - 1);
      }
    }
    if a[0] < b[0] {
      assert Before(a, b, 0);
    }
    if a[0] == b[0] {
      if k: nat :| Before(a[1..], b[1..], k) {
        assert a[..k + 1] == [a[0]] + a[1..][..k] && b[..k + 1] == [b[0]] + b[1..][..k];
        assert Before(a, b, k + 1);
      }
    }
  }

  /** The order of two element sequences. */
  function Order(a: seq<string>, b: seq<string>): (r: int)
    ensures -1 <= r <= 1
  {
    if a == [] && b == [] then 0
    else if a == [] then -1
    else if b == [] then 1
    else if Less(a[0], b[0]) then -1
    else if Less(b[0], a[0]) then 1
    else Order(a[1..], b[1..])
  }

  /** Two paths compare equal exactly when they have the same elements, and swapping them negates the result. */
  lemma {:induction false} OrderIsExact(a: seq<string>, b: seq<string>)
    ensures Order(a, b) == 0 <==> a == b
    ensures Order(b, a) == -Order(a, b)
  {
    if a != [] && b != [] {
      LessIsTotal(a[0], b[0]);
      OrderIsExact(a[1..], b[1..]);
      assert a == [a[0]] + a[1..] && b == [b[0]] + b[1..];
    }
  }

  /** One path has run out of elements, or has the smaller one where they first differ. */
  predicate ElementsBefore(a: seq<string>, b: seq<string>, k: nat) {
    k <= |a| && k < |b| && a[..k] == b[..k] && (k == |a| || Less(a[k], b[k]))
  }

  lemma {:induction false} OrderIsFirstDifference(a: seq<string>, b: seq<string>)
    ensures Order(a, b) == -1 <==> exists k: nat :: ElementsBefore(a, b, k)
    ensures Order(a, b) == 1 <==> exists k: nat :: ElementsBefore(b, a, k)
  {
    hide Less;
    if a == [] && b != [] {
      assert ElementsBefore(a, b, 0);
    } else if a != [] && b == [] {
      assert ElementsBefore(b, a, 0);
    } else if a != [] {
      OrderIsFirstDifference(a[1..], b[1..]);
      ElementsShift(a, b);
      ElementsShift(b, a);
      LessIsTotal(a[0], b[0]);
    }
  }

  lemma ElementsShift(a: seq<string>, b: seq<string>)
    requires a != [] && b != []
    ensures (exists k: nat :: ElementsBefore(a, b, k)) <==>
            Less(a[0], b[0]) || (a[0] == b[0] && exists k: nat :: ElementsBefore(a[1..], b[1..], k))
  {
    hide Less;
    if k: nat :| ElementsBefore(a, b, k) {
      if k > 0 {
        assert a[0] == a[..k][0] == b[..k][0] == b[0];
        assert a[1..][..k - 1] == a[..k][1..] && b[1..][..k - 1] == b[..k][1..];
        assert ElementsBefore(a[1..], b[1..], k - 1);
      }
    }
    if Less(a[0], b[0]) {
      assert ElementsBefore(a, b, 0);
    }
    if a[0] == b[0] {
      if k: nat :| ElementsBefore(a[1..], b[1..], k) {
        assert a[..k + 1] == [a[0]] + a[1..][..k] && b[..k + 1] == [b[0]] + b[1..][..k];
        assert ElementsBefore(a, b, k + 1);
      }
    }
  }

  /** Where an iterator stands after k increments from begin(). */
  ghost predicate At(it: PathIterator, k: nat)
    reads it
  {
    && k <= |Walk(it.path)|
    && it.View() == if k < |Walk(it.path)| then Walk(it.path)[k] else End(it.path)
  }

  lemma BeginIsAt(p: string)
    ensures PosixPath.Begin(p) == if 0 < |Walk(p)| then Walk(p)[0] else End(p)
  {
    if p != "" {
      WalkIterates(p);
    }
  }

  lemma AtEnd(it: PathIterator, k: nat)
    requires At(it, k)
    ensures it.pos == |it.path| <==> k == |Walk(it.path)|
    ensures k < |Walk(it.path)| ==>
              && it.pos < |it.path| && InRange(it.path, it.View())
              && it.element == Elements(it.path)[k]
              && PosixPath.Increment(it.path, it.View()).pos > it.pos
              && PosixPath.Increment(it.path, it.View()) == Successor(it.path, Walk(it.path), k)
  {
    if k < |Walk(it.path)| {
      IncrementFollowsWalk(it.path, k);
    }
  }

  /** detail::lex_compare over two whole paths. */
  method LexCompare(p: string, q: string) returns (r: int)
    ensures r == Order(Elements(p), Elements(q))
  {
    hide Walk, Elements, Order, PosixPath.Increment, PosixPath.Begin;
    var first1 := new PathIterator(p);
    var first2 := new PathIterator(q);
    ghost var k := 0;
    ghost var e1, e2 := Elements(p), Elements(q);
    BeginIsAt(p);
    BeginIsAt(q);
    assert e1[0..] == e1 && e2[0..] == e2;
    AtEnd(first1, 0);
    AtEnd(first2, 0);
    while first1.pos != |p| && first2.pos != |q|
      invariant first1.path == p && first2.path == q && first1 != first2
      invariant At(first1, k) && At(first2, k)
      invariant first1.pos == |p| <==> k == |e1|
      invariant first2.pos == |q| <==> k == |e2|
      invariant Order(e1[k..], e2[k..]) == Order(e1, e2)
      decreases |e1| - k
    {
      AtEnd(first1, k);
      AtEnd(first2, k);
      OrderStep(e1, e2, k);
      if Less(first1.element, first2.element) { return -1; }
      if Less(first2.element, first1.element) { return 1; }
      first1.Increment();
      first2.Increment();
      k := k + 1;
      AtEnd(first1, k);
      AtEnd(first2, k);
    }
    OrderAtEnd(e1, e2, k);
    if first1.pos == |p| && first2.pos == |q| {
      return 0;
    }
    return if first1.pos == |p| then -1 else 1;
  }

  lemma OrderStep(a: seq<string>, b: seq<string>, k: nat)
    requires k < |a| && k < |b|
    ensures Order(a[k..], b[k..]) ==
            if Less(a[k], b[k]) then -1 else if Less(b[k], a[k]) then 1 else Order(a[k + 1..], b[k + 1..])
  {
    assert a[k..][1..] == a[k + 1..] && b[k..][1..] == b[k + 1..];
  }

  lemma OrderAtEnd(a: seq<string>, b: seq<string>, k: nat)
    requires k <= |a| && k <= |b| && (k == |a| || k == |b|)
    ensures Order(a[k..], b[k..]) == if |a| == |b| then 0 else if k == |a| then -1 else 1
  {
  }

  /** Both sides have text, the left one does not end in a separator, and the right one does not begin with one. */
  predicate NeedsSep(p: string, rhs: string) {
    p != "" && rhs != "" && !IsSep(p[|p| - 1]) && !IsSep(rhs[0])
  }

  class Path {
    var pathname: string

    constructor (s: string)
      ensures pathname == s
    {
      pathname := s;
    }

    /** m_append_separator_if_needed: afterwards a name can be written straight behind the path. */
    method AppendSeparatorIfNeeded()
      modifies this
      ensures pathname == "" <==> old(pathname) == ""
      ensures pathname != "" ==> IsSep(pathname[|pathname| - 1])
      ensures forall name :: name != "" && !IsSep(name[0]) ==> pathname + name == Append(old(pathname), name)
    {
      if pathname != "" && !IsSep(pathname[|pathname| - 1]) {
        pathname := pathname + "/";
      }
    }

    /** operator/= for a path other than this one, and for this one itself: the right side is written behind the
        path, with one separator between them exactly when both have text and neither brings one. */
    method AppendPath(p: Path)
      modifies this
      ensures pathname == Append(old(pathname), old(p.pathname))
      ensures old(pathname) <= pathname
      ensures var rhs, at := old(p.pathname), |pathname| - |old(p.pathname)|;
              && 0 <= at && pathname[at..] == rhs
              && at == |old(pathname)| + (if NeedsSep(old(pathname), rhs) then 1 else 0)
              && (NeedsSep(old(pathname), rhs) ==> IsSep(pathname[at - 1]))
      ensures p != this ==> p.pathname == old(p.pathname)
    {
      if p.pathname == "" {
        return;
      }
      if this == p {
        var rhs := p.pathname;
        if !IsSep(rhs[0]) {
          AppendSeparatorIfNeeded();
        }
        pathname := pathname + rhs;
      } else {
        if !IsSep(p.pathname[0]) {
          AppendSeparatorIfNeeded();
        }
        pathname := pathname + p.pathname;
      }
    }
  }
}
