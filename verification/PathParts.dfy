/** parent_path, filename and operator/=, and what they do to the elements of a path. */
module PathParts {
  import opened PosixPath

  /** The element strings a path iterates to. */
  function Elements(p: string): (es: seq<string>)
    ensures |es| == |Walk(p)|
  {
    seq(|Walk(p)|, i requires 0 <= i < |Walk(p)| => Walk(p)[i].element)
  }

  /** path(const char*): the string up to the first NUL. */
  function FromCString(s: string): string {
    if s == "" || s[0] == '\0' then "" else [s[0]] + FromCString(s[1..])
  }

  lemma {:induction false} FromCStringWhole(s: string)
    requires '\0' !in s
    ensures FromCString(s) == s
  {
    if s != "" {
      FromCStringWhole(s[1..]);
    }
  }

  /** What a C string keeps: the characters before the first NUL. */
  lemma {:induction false} FromCStringKeeps(s: string)
    ensures FromCString(s) <= s && '\0' !in FromCString(s)
    ensures '\0' in s ==> |FromCString(s)| < |s|
  {
    if s != "" && s[0] != '\0' {
      FromCStringKeeps(s[1..]);
      assert s == [s[0]] + s[1..];
    }
  }

  lemma {:induction false} FromCStringAppend(a: string, b: string)
    requires '\0' !in a
    ensures FromCString(a + b) == a + FromCString(b)
  {
    if a == "" {
      assert a + b == b;
    } else {
      assert (a + b)[1..] == a[1..] + b;
      FromCStringAppend(a[1..], b);
    }
  }

  /** m_parent_path_end, with NPOS for npos. */
  function ParentPathEnd(p: string): (r: int)
    ensures NPOS <= r <= |p|
  {
    var name := FilenamePos(p, |p|);
    var wasSep := p != "" && name < |p| && IsSep(p[name]);
    var root := RootDirectoryStart(p, name);
    var end := SkipBack(p, name, root);
    if end == 1 && root == 0 && wasSep then NPOS else end
  }

  function ParentPath(p: string): string {
    var end := ParentPathEnd(p);
    if end == NPOS then "" else p[..end]
  }

  function Filename(p: string): string {
    var pos := FilenamePos(p, |p|);
    if p != "" && pos > 0 && pos < |p| && IsSep(p[pos]) && !IsRootSeparator(p, pos) then "."
    else FromCString(p[pos..])
  }

  /** operator/=: the path after appending rhs. */
  function Append(p: string, rhs: string): string {
    if rhs == "" then p
    else if !IsSep(rhs[0]) && p != "" && !IsSep(p[|p| - 1]) then p + "/" + rhs
    else p + rhs
  }

  // ----- the same name walk, whatever separates the names -----

  /** The elements of a walk, forgetting positions. */
  function Strip(w: seq<Iterator>): (es: seq<string>)
    ensures |es| == |w|
    ensures forall i :: 0 <= i < |w| ==> es[i] == w[i].element
  {
    seq(|w|, i requires 0 <= i < |w| => w[i].element)
  }

  lemma StripAppend(a: seq<Iterator>, b: seq<Iterator>)
    ensures Strip(a + b) == Strip(a) + Strip(b)
  {
  }

  predicate NameString(s: string) {
    s != "" && forall k :: 0 <= k < |s| ==> !IsSep(s[k])
  }

  predicate SepString(s: string) {
    forall k :: 0 <= k < |s| ==> IsSep(s[k])
  }

  lemma NameWalkUnfolds(s: string, at: nat)
    requires s != "" && !IsSep(s[0])
    ensures var e := FirstSep(s, 0);
            NameWalk(s, at) == [Iterator(at, s[..e])] + TailWalk(s[e..], at + e)
  {
  }

  lemma TailWalkUnfolds(s: string, at: nat)
    requires s != "" && IsSep(s[0])
    ensures var k := SkipSeps(s, 0);
            TailWalk(s, at) == if k == |s| then [Iterator(at + k - 1, ".")] else NameWalk(s[k..], at + k)
  {
  }

  /** s starts with a name; the elements do not depend on where it stands. */
  lemma {:induction false} NameWalkMoves(s: string, a: nat, b: nat)
    requires s != "" && !IsSep(s[0])
    ensures Strip(NameWalk(s, a)) == Strip(NameWalk(s, b))
    decreases |s|, 1
  {
    hide NameWalk, TailWalk, Strip, FirstSep;
    var e := FirstSep(s, 0);
    NameWalkUnfolds(s, a);
    NameWalkUnfolds(s, b);
    StripAppend([Iterator(a, s[..e])], TailWalk(s[e..], a + e));
    StripAppend([Iterator(b, s[..e])], TailWalk(s[e..], b + e));
    TailWalkMoves(s[e..], a + e, b + e);
  }

  lemma StripDot(at: nat)
    ensures Strip([Iterator(at, ".")]) == ["."]
  {
  }

  lemma {:induction false} TailWalkMoves(s: string, a: nat, b: nat)
    requires s == "" || IsSep(s[0])
    ensures Strip(TailWalk(s, a)) == Strip(TailWalk(s, b))
    decreases |s|, 0
  {
    if s != "" {
      var k := SkipSeps(s, 0);
      TailWalkUnfolds(s, a);
      TailWalkUnfolds(s, b);
      assert k > 0;
      hide NameWalk, TailWalk, SkipSeps, Strip, IsSep;
      if k < |s| {
        NameWalkMoves(s[k..], a + k, b + k);
      } else {
        StripDot(a + k - 1);
        StripDot(b + k - 1);
      }
    }
  }

  /** The elements of s, which starts with a name. */
  function Names(s: string): seq<string>
    requires s != "" && !IsSep(s[0])
  {
    Strip(NameWalk(s, 0))
  }

  /** The elements of what follows a name. */
  function Tail(s: string): seq<string>
    requires s == "" || IsSep(s[0])
  {
    Strip(TailWalk(s, 0))
  }

  lemma TailIs(s: string, at: nat)
    requires s == "" || IsSep(s[0])
    ensures Strip(TailWalk(s, at)) == Tail(s)
    ensures Tail(s) == if s == "" then [] else if SkipSeps(s, 0) == |s| then ["."] else Names(s[SkipSeps(s, 0)..])
  {
    TailWalkMoves(s, at, 0);
    if s != "" {
      var k := SkipSeps(s, 0);
      TailWalkUnfolds(s, 0);
      hide TailWalk, NameWalk, SkipSeps;
      if k < |s| {
        NameWalkMoves(s[k..], k, 0);
      }
    }
  }

  lemma NamesIs(s: string, at: nat)
    requires s != "" && !IsSep(s[0])
    ensures Strip(NameWalk(s, at)) == Names(s)
    ensures Names(s) == [s[..FirstSep(s, 0)]] + Tail(s[FirstSep(s, 0)..])
  {
    NameWalkMoves(s, at, 0);
    var e := FirstSep(s, 0);
    TailIs(s[e..], e);
    StripAppend([Iterator(0, s[..e])], TailWalk(s[e..], e));
  }

  function Relative(s: string): seq<string>
    requires s == "" || !IsSep(s[0])
  {
    if s == "" then [] else Names(s)
  }

  /** The elements of what follows a network name. */
  function NetTail(s: string): seq<string>
    requires s == "" || IsSep(s[0])
  {
    if s == "" then [] else ["/"] + Relative(s[SkipSeps(s, 0)..])
  }

  lemma ElementsStrip(p: string)
    ensures Elements(p) == Strip(Walk(p))
  {
  }

  lemma RelativeIs(s: string, at: nat)
    requires s == "" || !IsSep(s[0])
    ensures Strip(RelativeWalk(s, at)) == Relative(s)
  {
    if s != "" {
      NamesIs(s, at);
    }
  }

  lemma ElementsOfPlain(p: string)
    requires p != "" && !IsSep(p[0])
    ensures Elements(p) == Names(p)
  {
    ElementsStrip(p);
  }

  lemma ElementsOfRooted(p: string)
    requires p != "" && IsSep(p[0]) && !IsNet(p)
    ensures Elements(p) == ["/"] + Relative(p[SkipSeps(p, 0)..])
  {
    ElementsStrip(p);
    var k := SkipSeps(p, 0);
    RelativeIs(p[k..], k);
    StripAppend([Iterator(k - 1, "/")], RelativeWalk(p[k..], k));
  }

  lemma NetTailIs(s: string, at: nat)
    requires s == "" || IsSep(s[0])
    ensures Strip(NetTailWalk(s, at)) == NetTail(s)
  {
    if s != "" {
      hide RelativeWalk, Relative;
      var k := SkipSeps(s, 0);
      RelativeIs(s[k..], at + k);
      StripAppend([Iterator(at, "/")], RelativeWalk(s[k..], at + k));
    }
  }

  lemma ElementsOfNet(p: string)
    requires IsNet(p)
    ensures Elements(p) == [p[..FirstSep(p, 2)]] + NetTail(p[FirstSep(p, 2)..])
  {
    ElementsStrip(p);
    var e := FirstSep(p, 2);
    var s := p[e..];
    NetTailIs(s, e);
    hide NetTailWalk, NetTail, Elements;
    StripAppend([Iterator(0, p[..e])], NetTailWalk(s, e));
  }

  // ----- changing what follows the last name -----

  predicate EndsInName(s: string) {
    s != "" && !IsSep(s[|s| - 1])
  }

  predicate TailString(s: string) {
    s == "" || IsSep(s[0])
  }

  lemma FirstSepOfAppend(s: string, t: string, from: nat)
    requires from <= |s| && TailString(t)
    ensures FirstSep(s + t, from) == FirstSep(s, from)
  {
    FirstSepIs(s + t, from, FirstSep(s, from));
  }

  lemma SkipSepsOfAppend(s: string, t: string)
    requires EndsInName(s)
    ensures SkipSeps(s + t, 0) == SkipSeps(s, 0) < |s|
  {
    assert SkipSeps(s, 0) < |s|;
    SkipSepsIs(s + t, 0, SkipSeps(s, 0));
  }

  lemma Drop(x: string, t: string, k: nat)
    requires k <= |x|
    ensures (x + t)[k..] == x[k..] + t
    ensures (x + t)[..k] == x[..k]
  {
  }

  /** What stands behind a name adds the elements of its own. */
  lemma {:induction false} NamesOfAppend(x: string, t: string)
    requires EndsInName(x) && !IsSep(x[0]) && TailString(t)
    ensures Names(x + t) == Names(x) + Tail(t)
    decreases |x|
  {
    hide Names, Tail;
    var e := FirstSep(x, 0);
    FirstSepOfAppend(x, t, 0);
    NamesIs(x + t, 0);
    NamesIs(x, 0);
    Drop(x, t, e);
    if e == |x| {
      TailIs("", 0);
      assert x[e..] == "" && "" + t == t;
    } else {
      TailOfAppend(x[e..], t);
      AppendElement(x[..e], Tail(x[e..]), Tail(t));
    }
  }

  lemma AppendElement(e: string, a: seq<string>, b: seq<string>)
    ensures [e] + (a + b) == [e] + a + b
  {
  }

  lemma {:induction false} TailOfAppend(y: string, t: string)
    requires EndsInName(y) && IsSep(y[0]) && TailString(t)
    ensures Tail(y + t) == Tail(y) + Tail(t)
    decreases |y|
  {
    hide Names, Tail;
    var k := SkipSeps(y, 0);
    SkipSepsOfAppend(y, t);
    TailIs(y + t, 0);
    TailIs(y, 0);
    Drop(y, t, k);
    NamesOfAppend(y[k..], t);
  }

  /** x is a network name and nothing else. */
  predicate NetOnly(x: string) {
    IsNet(x) && FirstSep(x, 2) == |x|
  }

  lemma NetTailOfAppend(y: string, t: string)
    requires EndsInName(y) && IsSep(y[0]) && TailString(t)
    ensures NetTail(y + t) == NetTail(y) + Tail(t)
  {
    var k := SkipSeps(y, 0);
    SkipSepsOfAppend(y, t);
    Drop(y, t, k);
    NamesOfAppend(y[k..], t);
    AppendElement("/", Names(y[k..]), Tail(t));
  }

  /** The elements that t adds behind a path that ends in the name of x. */
  function Behind(x: string, t: string): seq<string>
    requires TailString(t)
  {
    if NetOnly(x) then NetTail(t) else Tail(t)
  }

  lemma NetOfAppend(x: string, t: string)
    requires EndsInName(x) && TailString(t) && IsNet(x)
    ensures IsNet(x + t) && Elements(x + t) == Elements(x) + Behind(x, t)
  {
    var e := FirstSep(x, 2);
    NetStays(x, t);
    ElementsOfNet(x + t);
    ElementsOfNet(x);
    assert NetTail("") == [];
    hide Elements, NetTail, Tail, IsNet, FirstSep;
    Drop(x, t, e);
    if e == |x| {
      assert x[e..] == "" && "" + t == t;
      assert [x[..e]] + [] == [x[..e]];
    } else {
      NetTailOfAppend(x[e..], t);
      AppendElement(x[..e], NetTail(x[e..]), Tail(t));
    }
  }

  lemma NetStays(x: string, t: string)
    requires EndsInName(x) && TailString(t) && IsNet(x)
    ensures IsNet(x + t) && FirstSep(x + t, 2) == FirstSep(x, 2)
    ensures NetOnly(x) <==> FirstSep(x, 2) == |x|
    ensures FirstSep(x, 2) < |x| ==> IsSep(x[FirstSep(x, 2)])
  {
    FirstSepOfAppend(x, t, 2);
  }

  lemma NotNetOfAppend(x: string, t: string)
    requires EndsInName(x) && IsSep(x[0]) && !IsNet(x)
    ensures !IsNet(x + t) && IsSep((x + t)[0])
  {
  }

  lemma RootedOfAppend(x: string, t: string)
    requires EndsInName(x) && TailString(t) && IsSep(x[0]) && !IsNet(x)
    ensures Elements(x + t) == Elements(x) + Tail(t)
  {
    var k := SkipSeps(x, 0);
    NotNetOfAppend(x, t);
    hide Elements, Tail, Names, IsNet, SkipSeps;
    ElementsOfRooted(x + t);
    ElementsOfRooted(x);
    SkipSepsOfAppend(x, t);
    Drop(x, t, k);
    NamesOfAppend(x[k..], t);
    AppendElement("/", Names(x[k..]), Tail(t));
  }

  /** The elements of a path that goes on behind a name. */
  lemma ElementsBehind(x: string, t: string)
    requires EndsInName(x) && TailString(t)
    ensures Elements(x + t) == Elements(x) + Behind(x, t)
  {
    if IsNet(x) {
      NetOfAppend(x, t);
    } else if IsSep(x[0]) {
      RootedOfAppend(x, t);
    } else {
      ElementsOfPlain(x + t);
      ElementsOfPlain(x);
      NamesOfAppend(x, t);
    }
  }

  /** Two paths with the same last name and tails that read alike have the same elements. */
  lemma ElementsOfAppend(x: string, t1: string, t2: string)
    requires EndsInName(x) && TailString(t1) && TailString(t2) && Behind(x, t1) == Behind(x, t2)
    ensures Elements(x + t1) == Elements(x + t2)
  {
    ElementsBehind(x, t1);
    ElementsBehind(x, t2);
  }

  lemma Join(a: string, b: string, c: string)
    ensures a + b + c == a + (b + c)
  {
  }

  // ----- parent_path and filename on each form of path -----

  /** p is x, a group of separators t, and a last name n; x ends in a name or is empty. */
  predicate Form(p: string, x: string, t: string, n: string) {
    && p == x + t + n
    && SepString(t)
    && (forall k :: 0 <= k < |n| ==> !IsSep(n[k]))
    && (x != "" ==> EndsInName(x) && t != "")
  }

  lemma FormOf(p: string) returns (x: string, t: string, n: string)
    ensures Form(p, x, t, n)
  {
    var c := LastSep(p, |p|) + 1;
    var b := SkipBack(p, c, NPOS);
    x, t, n := p[..b], p[b..c], p[c..];
    assert x + t == p[..c];
    assert c > 0 ==> IsSep(p[c - 1]);
  }

  /** What the recombined path looks like. */
  function Recombined(p: string): string {
    Append(ParentPath(p), Filename(p))
  }

  /** Where the filename starts, when the path has a name before its last separators. */
  lemma FilenamePosOfForm(p: string, x: string, t: string, n: string)
    requires Form(p, x, t, n) && x != ""
    ensures FilenamePos(p, |p|) == if n == "" then |p| - 1 else |x| + |t|
  {
    var c := |x| + |t|;
    assert forall k :: |x| <= k < c ==> p[k] == t[k - |x|];
    assert forall k :: c <= k < |p| ==> p[k] == n[k - c];
    assert p[|x| - 1] == x[|x| - 1];
    if n != "" {
      var last := LastSep(p, |p|);
      assert IsSep(p[c - 1]);
      assert last >= c - 1;
      assert last < c;
    }
  }

  lemma SkipBackOfForm(p: string, x: string, t: string, n: string, from: nat)
    requires Form(p, x, t, n) && x != "" && |x| <= from <= |x| + |t|
    ensures SkipBack(p, from, RootDirectoryStart(p, from)) ==
            if NetOnly(x) && from > |x| then |x| + 1 else |x|
  {
    var c := |x| + |t|;
    assert forall k :: |x| <= k < c ==> p[k] == t[k - |x|];
    assert forall k :: 0 <= k < |x| ==> p[k] == x[k];
    assert x != "//";
    var root := RootDirectoryStart(p, from);
    if IsNet(x) {
      FirstSepOfForm(p, x, t, n);
      assert |x| > 2 && IsNet(p);
      if NetOnly(x) && from > |x| {
        assert root == |x|;
        SkipBackIs(p, from, root, |x| + 1);
      } else {
        assert root < |x|;
        SkipBackIs(p, from, root, |x|);
      }
    } else {
      assert root < |x|;
      SkipBackIs(p, from, root, |x|);
    }
  }

  lemma FirstSepOfForm(p: string, x: string, t: string, n: string)
    requires Form(p, x, t, n) && |x| >= 2
    ensures FirstSep(p, 2) == FirstSep(x, 2)
  {
    assert p == x + (t + n);
    FirstSepOfAppend(x, t + n, 2);
  }

  /** A trailing separator after a network name is the root directory, any other after a name is not. */
  lemma RootSeparatorOfForm(p: string, x: string, t: string)
    requires Form(p, x, t, "") && x != ""
    ensures IsSep(p[|p| - 1])
    ensures IsRootSeparator(p, |p| - 1) == NetOnly(x)
  {
    assert forall k :: |x| <= k < |p| ==> p[k] == t[k - |x|];
    assert forall k :: 0 <= k < |x| ==> p[k] == x[k];
    LeftmostSepIs(p, |p| - 1, |x|);
    if |x| >= 2 {
      FirstSepOfForm(p, x, t, "");
    }
    assert !IsNet(x) && IsSep(p[0]) && |x| >= 2 && IsSep(p[1]) ==> |x| > 2 && IsSep(p[2]);
  }

  lemma FilenameOfName(p: string, x: string, t: string, n: string)
    requires Form(p, x, t, n) && x != "" && n != ""
    ensures Filename(p) == FromCString(n)
  {
    var c := |x| + |t|;
    FilenamePosOfForm(p, x, t, n);
    assert p[c..] == n && p[c] == n[0];
  }

  lemma ParentOfName(p: string, x: string, t: string, n: string)
    requires Form(p, x, t, n) && x != "" && n != ""
    ensures ParentPath(p) == if NetOnly(x) then x + "/" else x
  {
    var c := |x| + |t|;
    FilenamePosOfForm(p, x, t, n);
    SkipBackOfForm(p, x, t, n, c);
    assert p[c] == n[0];
    assert p[|x|] == t[0] == '/';
    assert p[..|x|] == x && p[..|x| + 1] == x + "/";
  }

  /** A path that ends in a name after another name. */
  lemma RecombinedName(p: string, x: string, t: string, n: string)
    requires Form(p, x, t, n) && x != "" && n != ""
    ensures var kept := FromCString(n);
            Recombined(p) == if kept != "" then x + ("/" + kept) else if NetOnly(x) then x + "/" else x
  {
    FilenameOfName(p, x, t, n);
    ParentOfName(p, x, t, n);
    FromCStringKeeps(n);
    hide ParentPath, Filename, NetOnly, FromCString;
    Join(x, "/", FromCString(n));
  }

  lemma FilenameOfTrailing(p: string, x: string, t: string)
    requires Form(p, x, t, "") && x != ""
    ensures Filename(p) == if NetOnly(x) then "/" else "."
  {
    FilenamePosOfForm(p, x, t, "");
    RootSeparatorOfForm(p, x, t);
    hide FilenamePos, NetOnly;
    assert p[|p| - 1..] == "/";
    FromCStringWhole("/");
  }

  lemma ParentOfTrailing(p: string, x: string, t: string)
    requires Form(p, x, t, "") && x != ""
    ensures ParentPath(p) == if NetOnly(x) && |t| > 1 then x + "/" else x
  {
    FilenamePosOfForm(p, x, t, "");
    SkipBackOfForm(p, x, t, "", |p| - 1);
    hide FilenamePos, NetOnly;
    assert p[|x|] == t[0] == '/';
    assert p[..|x|] == x && p[..|x| + 1] == x + "/";
  }

  /** A path that ends in separators after a name. */
  lemma RecombinedTrailing(p: string, x: string, t: string)
    requires Form(p, x, t, "") && x != ""
    ensures Recombined(p) == x + if !NetOnly(x) then "/." else if |t| == 1 then "/" else "//"
  {
    FilenameOfTrailing(p, x, t);
    ParentOfTrailing(p, x, t);
    hide ParentPath, Filename, NetOnly;
    Join(x, "/", ".");
    Join(x, "/", "/");
  }

  lemma TailOfSeps(t: string)
    requires SepString(t) && t != ""
    ensures Tail(t) == ["."] && NetTail(t) == ["/"]
  {
    SkipSepsIs(t, 0, |t|);
    TailIs(t, 0);
  }

  lemma TailOfName(t: string, n: string)
    requires SepString(t) && t != "" && NameString(n)
    ensures Tail(t + n) == Names(n) && NetTail(t + n) == ["/"] + Names(n)
  {
    SkipSepsIs(t + n, 0, |t|);
    TailIs(t + n, 0);
    assert (t + n)[|t|..] == n;
  }

  lemma NamesOfName(n: string)
    requires NameString(n)
    ensures Names(n) == [n]
  {
    FirstSepIs(n, 0, |n|);
    NamesIs(n, 0);
    assert n[..|n|] == n && n[|n|..] == "";
    TailIs("", 0);
  }

  lemma KeepsElementsAfterName(p: string, x: string, t: string, n: string)
    requires Form(p, x, t, n) && x != "" && '\0' !in n
    ensures Elements(Recombined(p)) == Elements(p)
  {
    hide Elements, Recombined, Names, Tail, NetTail, NetOnly;
    if n != "" {
      RecombinedName(p, x, t, n);
      FromCStringWhole(n);
      TailOfName(t, n);
      TailOfName("/", n);
      assert p == x + (t + n);
      ElementsOfAppend(x, t + n, "/" + n);
    } else {
      RecombinedTrailing(p, x, t);
      assert p == x + t;
      TailOfSeps(t);
      if NetOnly(x) {
        var t' := if |t| == 1 then "/" else "//";
        TailOfSeps(t');
        ElementsOfAppend(x, t, t');
      } else {
        NamesOfName(".");
        TailOfName("/", ".");
        assert "/" + "." == "/.";
        ElementsOfAppend(x, t, "/.");
      }
    }
  }

  /** A path without a name before its last separators: at most separators and one name. */
  lemma RecombinedShort(p: string, t: string, n: string)
    requires Form(p, "", t, n)
    ensures Recombined(p) == (if |t| <= 2 then t else "/") + FromCString(n)
  {
    assert p == t + n;
    if n == "" {
      RecombinedSeparators(p);
    } else {
      RecombinedRootName(p, t, n);
    }
  }

  lemma FilenameOfSeparators(p: string)
    requires SepString(p)
    ensures Filename(p) == if |p| <= 2 then p else "/"
  {
    if p != "" {
      LeftmostSepIs(p, |p| - 1, 0);
      FromCStringOfSeps(p[FilenamePos(p, |p|)..]);
      hide FromCString;
      assert |p| != 2 ==> p[|p| - 1..] == "/";
      assert p[0..] == p;
    }
  }

  lemma FromCStringOfSeps(s: string)
    requires SepString(s)
    ensures FromCString(s) == s
  {
    FromCStringWhole(s);
  }

  lemma ParentOfSeparators(p: string)
    requires SepString(p)
    ensures ParentPath(p) == ""
  {
    if |p| == 3 {
      SkipBackIs(p, 2, NPOS, 0);
    } else if |p| > 3 {
      assert RootDirectoryStart(p, |p| - 1) == 0;
      SkipBackIs(p, |p| - 1, 0, 1);
    }
  }

  lemma RecombinedSeparators(p: string)
    requires SepString(p)
    ensures Recombined(p) == if |p| <= 2 then p else "/"
  {
    FilenameOfSeparators(p);
    ParentOfSeparators(p);
    hide Filename, ParentPath;
  }

  lemma LastSepIs(s: string, end: nat, r: int)
    requires NPOS <= r < end <= |s|
    requires forall k :: r < k < end ==> !IsSep(s[k])
    requires r >= 0 ==> IsSep(s[r])
    ensures LastSep(s, end) == r
  {
    var f := LastSep(s, end);
    assert f >= r;
    assert r >= f;
  }

  lemma RootNamePos(p: string, t: string, n: string)
    requires p == t + n && SepString(t) && NameString(n)
    ensures FilenamePos(p, |p|) == if |t| == 2 then 0 else |t|
    ensures p[|t|..] == n && !IsSep(p[|t|])
    ensures |t| > 0 ==> IsSep(p[0])
  {
    assert forall k :: 0 <= k < |t| ==> p[k] == t[k];
    assert forall k :: |t| <= k < |p| ==> p[k] == n[k - |t|];
    assert p[|t|..] == n;
    LastSepIs(p, |p|, |t| - 1);
  }

  lemma RecombinedRootName(p: string, t: string, n: string)
    requires p == t + n && SepString(t) && NameString(n)
    ensures Recombined(p) == (if |t| <= 2 then t else "/") + FromCString(n)
  {
    RootNamePos(p, t, n);
    FromCStringKeeps(n);
    if |t| == 0 || |t| == 2 {
      assert p[0..] == p && p[..0] == "";
      FromCStringAppend(t, n);
    } else {
      ParentOfRootName(p, t, n);
      hide FilenamePos, ParentPath, FromCString;
      if |t| == 1 { assert t == "/"; }
      assert Filename(p) == FromCString(n);
    }
  }

  lemma ParentOfRootName(p: string, t: string, n: string)
    requires p == t + n && SepString(t) && NameString(n) && t != "" && |t| != 2
    ensures ParentPath(p) == "/"
  {
    RootNamePos(p, t, n);
    assert forall k :: 0 <= k < |t| ==> p[k] == t[k];
    assert RootDirectoryStart(p, |t|) == 0;
    SkipBackIs(p, |t|, 0, 1);
    assert p[..1] == "/";
  }

  lemma RootNameElements(p: string, t: string, n: string)
    requires Form(p, "", t, n) && t != "" && |t| != 2
    ensures Elements(p) == ["/"] + Relative(n)
  {
    assert p == t + n;
    assert forall k :: 0 <= k < |t| ==> p[k] == t[k];
    assert forall k :: |t| <= k < |p| ==> p[k] == n[k - |t|];
    SkipSepsIs(p, 0, |t|);
    ElementsOfRooted(p);
    assert p[|t|..] == n;
  }

  lemma RootedForm(p: string, t: string, n: string)
    requires Form(p, "", t, n)
    ensures Form("/" + n, "", "/", n)
  {
    assert "" + "/" + n == "/" + n;
  }

  lemma ShortRecombined(p: string, t: string, n: string)
    requires Form(p, "", t, n) && '\0' !in n
    ensures Recombined(p) == if |t| <= 2 then p else "/" + n
  {
    RecombinedShort(p, t, n);
    FromCStringWhole(n);
    ShortForm(p, t, n);
    hide Recombined, FromCString, Form;
  }

  lemma ShortForm(p: string, t: string, n: string)
    requires Form(p, "", t, n)
    ensures p == t + n
  {
  }

  lemma KeepsElementsShort(p: string, t: string, n: string)
    requires Form(p, "", t, n) && '\0' !in n
    ensures Elements(Recombined(p)) == Elements(p)
  {
    hide Elements, Recombined, Relative, Form;
    ShortRecombined(p, t, n);
    if |t| > 2 {
      RootNameElements(p, t, n);
      RootedForm(p, t, n);
      RootNameElements("/" + n, "/", n);
    }
  }

  // ----- what operator/= does to the elements -----

  /** Where the names begin behind leading separators. */
  function Unrooted(s: string): (r: string)
    ensures r == "" || !IsSep(r[0])
  {
    s[SkipSeps(s, 0)..]
  }

  lemma UnrootedSplit(t: string, s: string)
    requires SepString(t)
    ensures Unrooted(t + s) == Unrooted(s)
  {
    var k := SkipSeps(s, 0);
    SkipSepsIs(t + s, 0, |t| + k);
    assert (t + s)[|t| + k..] == s[k..];
  }

  lemma ElementsOfUnrooted(r: string)
    requires r == "" || !IsSep(r[0])
    ensures Elements(r) == Relative(r)
  {
    if r != "" {
      ElementsOfPlain(r);
    }
  }

  lemma BehindName(x: string, t: string)
    requires t != "" && IsSep(t[0])
    ensures Behind(x, t) == if NetOnly(x) then ["/"] + Elements(Unrooted(t))
                            else if Unrooted(t) == "" then ["."] else Elements(Unrooted(t))
  {
    TailIs(t, 0);
    ElementsOfUnrooted(Unrooted(t));
    hide Elements, NetOnly, Names, Tail;
  }

  /** x ends in a name and t is some separators, or none; what is appended adds its elements behind those of x,
      whether it starts with a separator or not. A network name gets its root directory, and separators alone
      read as a dot or as that root directory. */
  lemma AppendAddsElements(x: string, t: string, rhs: string)
    requires EndsInName(x) && SepString(t) && rhs != ""
    ensures Elements(Append(x + t, rhs)) ==
            Elements(x) + if NetOnly(x) then ["/"] + Elements(Unrooted(rhs))
                          else if Unrooted(rhs) == "" then ["."] else Elements(Unrooted(rhs))
  {
    var sep := if t == "" && !IsSep(rhs[0]) then "/" else t;
    assert SepString(sep) && Append(x + t, rhs) == x + (sep + rhs) by {
      Join(x, sep, rhs);
      assert t == "" ==> x + t == x;
      assert t != "" ==> (x + t)[|x + t| - 1] == t[|t| - 1];
    }
    hide Append, Elements, NetOnly, Unrooted;
    assert IsSep((sep + rhs)[0]);
    ElementsBehind(x, sep + rhs);
    BehindName(x, sep + rhs);
    UnrootedSplit(sep, rhs);
  }

  // ----- what the elements carry -----

  /** The characters of s that are no separators, in order. */
  function NonSeps(s: string): string {
    if s == "" then "" else (if IsSep(s[0]) then "" else [s[0]]) + NonSeps(s[1..])
  }

  lemma {:induction false} NonSepsAppend(a: string, b: string)
    ensures NonSeps(a + b) == NonSeps(a) + NonSeps(b)
  {
    if a == "" {
      assert a + b == b;
    } else {
      assert (a + b)[1..] == a[1..] + b;
      NonSepsAppend(a[1..], b);
    }
  }

  lemma {:induction false} NonSepsOfSeps(s: string)
    requires SepString(s)
    ensures NonSeps(s) == ""
  {
    if s != "" {
      NonSepsOfSeps(s[1..]);
    }
  }

  /** The separator-free text of a sequence of elements. */
  function Text(es: seq<string>): string {
    if es == [] then "" else NonSeps(es[0]) + Text(es[1..])
  }

  lemma TextCons(e: string, es: seq<string>)
    ensures Text([e] + es) == NonSeps(e) + Text(es)
  {
    assert ([e] + es)[1..] == es;
  }

  function DotIf(b: bool): string {
    if b then "." else ""
  }

  predicate EndsInSep(s: string) {
    s != "" && IsSep(s[|s| - 1])
  }

  lemma {:induction false} TextOfNames(s: string)
    requires s != "" && !IsSep(s[0])
    ensures Text(Names(s)) == NonSeps(s) + DotIf(EndsInSep(s))
    decreases |s|, 1
  {
    hide Names, Tail, Text, NonSeps;
    var e := FirstSep(s, 0);
    NamesIs(s, 0);
    TextCons(s[..e], Tail(s[e..]));
    TextOfTail(s[e..]);
    assert s == s[..e] + s[e..];
    NonSepsAppend(s[..e], s[e..]);
  }

  lemma {:induction false} TextOfTail(s: string)
    requires TailString(s)
    ensures Text(Tail(s)) == NonSeps(s) + DotIf(EndsInSep(s))
    decreases |s|, 0
  {
    TailIs(s, 0);
    hide Names, Tail;
    if s != "" {
      var k := SkipSeps(s, 0);
      assert s == s[..k] + s[k..];
      NonSepsAppend(s[..k], s[k..]);
      NonSepsOfSeps(s[..k]);
      if k < |s| {
        TextOfNames(s[k..]);
      } else {
        assert s[k..] == "";
        TextCons(".", []);
      }
    }
  }

  /** What follows the root separators: the same text, and a dot when it ends in a separator. */
  lemma TextOfRelative(s: string)
    requires s == "" || !IsSep(s[0])
    ensures Text(Relative(s)) == NonSeps(s) + DotIf(EndsInSep(s))
  {
    if s != "" {
      TextOfNames(s);
    }
  }

  lemma NonSepsSplit(p: string, k: nat)
    requires k <= |p|
    ensures NonSeps(p) == NonSeps(p[..k]) + NonSeps(p[k..])
  {
    hide NonSeps;
    NonSepsAppend(p[..k], p[k..]);
    assert p == p[..k] + p[k..];
  }

  /** A root directory of k separators carries no text. */
  lemma TextOfRoot(p: string, k: nat)
    requires k <= |p| && SepString(p[..k]) && (k < |p| ==> !IsSep(p[k]))
    ensures Text(["/"] + Relative(p[k..])) == NonSeps(p) + DotIf(EndsInSep(p[k..]))
  {
    var rest := p[k..];
    NonSepsOfSeps("/");
    hide Relative, DotIf, EndsInSep, Text, NonSeps, SepString;
    TextCons("/", Relative(rest));
    TextOfRelative(rest);
    NonSepsSplit(p, k);
    NonSepsOfSeps(p[..k]);
    assert "" + NonSeps(rest) == NonSeps(rest);
    assert "" + (NonSeps(rest) + DotIf(EndsInSep(rest))) == NonSeps(rest) + DotIf(EndsInSep(rest));
  }

  /** A path ends in a separator that is not a root directory. */
  predicate TrailingSep(p: string) {
    EndsInSep(p) && !IsRootSeparator(p, |p| - 1)
  }

  lemma TrailingSepOfForm(p: string, x: string, t: string, n: string)
    requires Form(p, x, t, n)
    ensures TrailingSep(p) <==> x != "" && n == "" && !NetOnly(x)
  {
    if n == "" {
      if x != "" {
        RootSeparatorOfForm(p, x, t);
      } else if p != "" {
        LeftmostSepIs(p, |p| - 1, 0);
      }
    } else {
      assert p[|p| - 1] == n[|n| - 1];
    }
  }

  lemma LastOfForm(p: string, x: string, t: string, n: string)
    requires Form(p, x, t, n)
    ensures n != "" ==> p != "" && !IsSep(p[|p| - 1])
    ensures n == "" ==> forall i :: |x| <= i < |p| ==> IsSep(p[i])
  {
    if n != "" {
      assert p[|p| - 1] == n[|n| - 1];
    } else {
      assert forall i :: |x| <= i < |p| ==> p[i] == t[i - |x|];
    }
  }

  lemma NetOnlyForm(p: string, x: string, t: string, n: string)
    requires Form(p, x, t, n) && NetOnly(x)
    ensures IsNet(p) && FirstSep(p, 2) == |x|
  {
    FirstSepOfForm(p, x, t, n);
    assert forall i :: 0 <= i < |x| ==> p[i] == x[i];
    assert x != "//" || x == "";
  }

  lemma NotNetOnly(p: string, x: string, t: string, n: string, k: nat)
    requires Form(p, x, t, n) && k < |x| && (IsNet(p) ==> FirstSep(p, 2) < k)
    ensures !NetOnly(x)
  {
    if NetOnly(x) {
      NetOnlyForm(p, x, t, n);
      assert false;
    }
  }

  /** A root of length k, up to the first name, leaves the trailing separator question to the rest. */
  lemma TrailingSepAfterRoot(p: string, k: nat)
    requires k <= |p| && (k < |p| ==> !IsSep(p[k]))
    requires IsNet(p) ==> FirstSep(p, 2) < k
    requires k == |p| ==> p != "" && IsRootSeparatorAtEnd(p)
    ensures TrailingSep(p) == EndsInSep(p[k..])
  {
    if k < |p| && EndsInSep(p) {
      var x, t, n := FormOf(p);
      TrailingSepOfForm(p, x, t, n);
      LastOfForm(p, x, t, n);
      NotNetOnly(p, x, t, n, k);
    }
  }

  predicate IsRootSeparatorAtEnd(p: string) {
    EndsInSep(p) && IsRootSeparator(p, |p| - 1)
  }

  /** The elements carry the separator-free text of the path in order, and one more dot exactly when the
      path ends in a separator that is not a root directory. */
  lemma ElementsCarryText(p: string)
    ensures Text(Elements(p)) == NonSeps(p) + DotIf(TrailingSep(p))
  {
    if p == "" {
    } else if IsNet(p) {
      NetText(p);
    } else if IsSep(p[0]) {
      RootedText(p);
    } else {
      hide Elements, Names, Text, NonSeps, TrailingSep;
      ElementsOfPlain(p);
      TextOfNames(p);
      assert p[0..] == p;
      TrailingSepAfterRoot(p, 0);
    }
  }

  lemma RootedText(p: string)
    requires p != "" && IsSep(p[0]) && !IsNet(p)
    ensures Text(Elements(p)) == NonSeps(p) + DotIf(TrailingSep(p))
  {
    var k := SkipSeps(p, 0);
    if k == |p| {
      LeftmostSepIs(p, |p| - 1, 0);
    }
    hide Elements, Relative, Text, NonSeps, TrailingSep, SkipSeps, DotIf;
    TrailingSepAfterRoot(p, k);
    ElementsOfRooted(p);
    TextOfRoot(p, k);
  }

  lemma NetText(p: string)
    requires IsNet(p)
    ensures Text(Elements(p)) == NonSeps(p) + DotIf(TrailingSep(p))
  {
    hide Elements, NetTail, Text, NonSeps, TrailingSep, DotIf, FirstSep;
    var e := FirstSep(p, 2);
    ElementsOfNet(p);
    TextCons(p[..e], NetTail(p[e..]));
    NonSepsSplit(p, e);
    NetTailText(p);
    Join(NonSeps(p[..e]), NonSeps(p[e..]), DotIf(TrailingSep(p)));
  }

  lemma NetTailText(p: string)
    requires IsNet(p)
    ensures var s := p[FirstSep(p, 2)..]; Text(NetTail(s)) == NonSeps(s) + DotIf(TrailingSep(p))
  {
    var e := FirstSep(p, 2);
    if e == |p| {
      NetNameText(p);
    } else {
      var k := SkipSeps(p, e);
      NetRootText(p[e..]);
      SearchSuffix(p, e);
      Slices(p, e, k);
      if k == |p| {
        assert !IsSep(p[e - 1]);
        LeftmostSepIs(p, |p| - 1, e);
      }
      hide NetTail, Text, NonSeps, TrailingSep;
      TrailingSepAfterRoot(p, k);
    }
  }

  lemma NetRootText(s: string)
    requires s != "" && IsSep(s[0])
    ensures Text(NetTail(s)) == NonSeps(s) + DotIf(EndsInSep(s[SkipSeps(s, 0)..]))
  {
    hide Relative, Text, NonSeps, DotIf, EndsInSep;
    TextOfRoot(s, SkipSeps(s, 0));
  }

  lemma NetNameText(p: string)
    requires IsNet(p) && FirstSep(p, 2) == |p|
    ensures !TrailingSep(p)
  {
    if |p| == 2 {
      LeftmostSepIs(p, 1, 0);
    } else {
      assert !IsSep(p[|p| - 1]);
    }
  }

  // ----- when the parts make up the whole -----

  lemma NonSepsOfName(n: string)
    requires forall k :: 0 <= k < |n| ==> !IsSep(n[k])
    ensures NonSeps(n) == n
  {
    if n != "" {
      NonSepsOfName(n[1..]);
      assert n == [n[0]] + n[1..];
    }
  }

  lemma NonSepsOfForm(p: string, x: string, t: string, n: string)
    requires p == x + t + n && SepString(t) && forall k :: 0 <= k < |n| ==> !IsSep(n[k])
    ensures NonSeps(p) == NonSeps(x) + n
  {
    NonSepsOfSeps(t);
    NonSepsOfName(n);
    hide NonSeps, SepString;
    var xt := x + t;
    NonSepsAppend(xt, n);
    NonSepsAppend(x, t);
    assert NonSeps(x) + "" == NonSeps(x);
  }

  /** The recombined path ends in what is left of a name that held a NUL. */
  lemma CutPath(p: string, x: string, t: string, n: string) returns (sep: string)
    requires Form(p, x, t, n) && n != ""
    ensures Recombined(p) == x + sep + FromCString(n) && SepString(sep)
    ensures x != "" && sep == "" ==> FromCString(n) == ""
    ensures x != "" && sep != "" && FromCString(n) == "" ==> NetOnly(x)
  {
    var kept := FromCString(n);
    assert SepString(t);
    if x == "" {
      RecombinedShort(p, t, n);
      hide Recombined, FromCString, Form;
      sep := if |t| <= 2 then t else "/";
      assert x + sep == sep;
    } else {
      RecombinedName(p, x, t, n);
      hide Recombined, FromCString, NetOnly, Form;
      if kept != "" {
        sep := "/";
        Join(x, "/", kept);
      } else if NetOnly(x) {
        sep := "/";
        assert x + "/" + "" == x + "/";
      } else {
        sep := "";
        assert x + "" + "" == x;
      }
    }
  }

  lemma CutName(p: string, x: string, t: string, n: string)
    requires Form(p, x, t, n) && '\0' in n
    ensures NonSeps(Recombined(p)) == NonSeps(x) + FromCString(n) && !TrailingSep(Recombined(p))
  {
    var kept := FromCString(n);
    var sep := CutPath(p, x, t, n);
    FromCStringKeeps(n);
    hide Recombined, FromCString, NonSeps, TrailingSep, NetOnly;
    var rec := x + sep + kept;
    NonSepsOfForm(rec, x, sep, kept);
    if x != "" && sep == "" {
      assert rec == x;
      NameEndsIt(rec);
    } else {
      TrailingSepOfForm(rec, x, sep, kept);
    }
  }

  lemma NameEndsIt(p: string)
    requires EndsInName(p)
    ensures !TrailingSep(p)
  {
  }

  /** The filename of a path is looked for behind its last separator. */
  lemma NulInName(p: string, x: string, t: string, n: string)
    requires Form(p, x, t, n)
    ensures '\0' in p[FilenamePos(p, |p|)..] <==> '\0' in n
  {
    if x != "" {
      FilenamePosOfForm(p, x, t, n);
      assert n != "" ==> p[|x| + |t|..] == n;
      assert n == "" ==> p[|p| - 1] == t[|t| - 1];
    } else if n != "" {
      assert p == t + n;
      RootNamePos(p, t, n);
      assert p[0..] == p;
    } else {
      assert p == t;
    }
  }

  /** Taking a path apart and joining the parts keeps its elements exactly when its last name holds no NUL:
      filename() goes through a C string, which ends there. */
  lemma ParentAndFilenameKeepElements(p: string)
    ensures Elements(Append(ParentPath(p), Filename(p))) == Elements(p) <==> '\0' !in p[FilenamePos(p, |p|)..]
  {
    var x, t, n := FormOf(p);
    NulInName(p, x, t, n);
    hide Elements, FilenamePos, Form;
    if '\0' in n {
      CutName(p, x, t, n);
      LosesText(p, x, t, n);
    } else if x == "" {
      KeepsElementsShort(p, t, n);
    } else {
      KeepsElementsAfterName(p, x, t, n);
    }
  }

  lemma LosesText(p: string, x: string, t: string, n: string)
    requires Form(p, x, t, n) && '\0' in n
    requires NonSeps(Recombined(p)) == NonSeps(x) + FromCString(n) && !TrailingSep(Recombined(p))
    ensures Elements(Recombined(p)) != Elements(p)
  {
    FromCStringKeeps(n);
    NonSepsOfForm(p, x, t, n);
    ElementsCarryText(p);
    ElementsCarryText(Recombined(p));
    hide Elements, Text, NonSeps, FromCString, Recombined, TrailingSep;
    assert |Text(Elements(Recombined(p)))| < |Text(Elements(p))|;
  }
}
