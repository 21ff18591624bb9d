/** Path arithmetic of the cache: `getFullPath`, the private `getParent(String)`,
    the name a record derives from its path, and the '/'-tokenizer the tree view
    uses to walk from the root down to a node. */
module Paths {
  import opened Base

  /** The path of the tree's root record. */
  const Root: string := "/"

  /** A child name as the coordination service reports it: non-empty, no '/'. */
  predicate ValidName(n: string)
  {
    |n| > 0 && '/' !in n
  }

  predicate ValidNames(segs: seq<string>)
  {
    forall k :: 0 <= k < |segs| ==> ValidName(segs[k])
  }

  /** `getFullPath`: the path of child `name` under `parent`. */
  function FullPath(parent: string, name: string): (r: string)
    ensures parent == Root ==> |r| == |parent| + |name|
    ensures parent != Root ==> |r| == |parent| + 1 + |name|
  {
    (if parent == Root then Root else parent + "/") + name
  }

  /** The child path starts with the parent path, then the joining '/' when the
      parent is not the root, and ends with the name. */
  lemma FullPathShape(parent: string, name: string)
    ensures var r := FullPath(parent, name);
            && parent <= r && r[|r| - |name|..] == name
            && (parent != Root ==> r[|parent|] == '/')
  {
  }

  /** `String.lastIndexOf("/")`. */
  function LastSlash(s: string): (i: int)
    ensures -1 <= i < |s|
    ensures 0 <= i ==> s[i] == '/'
    ensures forall k :: i < k < |s| ==> s[k] != '/'
  {
    if |s| == 0 then -1
    else if s[|s| - 1] == '/' then |s| - 1
    else LastSlash(s[..|s| - 1])
  }

  /** The private `getParent(String)`: nothing for the root; the text before the
      last '/' when that slash is not the first character; the root otherwise. */
  function ParentPath(p: string): (r: Option<string>)
    ensures r.None? <==> p == Root
  {
    if p == Root then None
    else
      var i := LastSlash(p);
      if i > 0 then Some(p[..i]) else Some(Root)
  }

  /** The parent of a non-root path is the root when no '/' follows the first
      character, and otherwise the text before the last '/'. */
  lemma ParentPathShape(p: string)
    requires p != Root
    ensures var r := ParentPath(p).value;
      || (r == Root && forall k :: 0 < k < |p| ==> p[k] != '/')
      || (0 < |r| < |p| && r == p[..|r|] && p[|r|] == '/' && '/' !in p[|r| + 1..])
  {
  }

  /** The name a record derives from its path: "/" for the root, otherwise the
      text after the last '/'. */
  function NameOf(p: string): (r: string)
    ensures p == Root ==> r == Root
    ensures |r| <= |p|
  {
    if p == Root then Root else p[LastSlash(p) + 1..]
  }

  /** The name of a non-root path is its text after the last '/', which holds
      no '/' itself. */
  lemma NameOfShape(p: string)
    requires p != Root
    ensures var r := NameOf(p);
            && r == p[|p| - |r|..] && '/' !in r
            && (|r| < |p| ==> p[|p| - |r| - 1] == '/')
  {
  }

  /** Length of the leading run of characters other than '/'. */
  function RunLength(s: string): (n: nat)
    ensures n <= |s|
    ensures '/' !in s[..n]
    ensures n < |s| ==> s[n] == '/'
  {
    if |s| == 0 || s[0] == '/' then 0
    else
      var m := RunLength(s[1..]);
      assert s[..m + 1] == [s[0]] + s[1..][..m];
      m + 1
  }

  /** The tokens `StringTokenizer(path, "/", false)` yields: the maximal
      non-empty runs of characters other than '/', in order. */
  function Tokens(s: string): (r: seq<string>)
    ensures ValidNames(r)
    decreases |s|
  {
    if |s| == 0 then []
    else if s[0] == '/' then Tokens(s[1..])
    else
      var n := RunLength(s);
      [s[..n]] + Tokens(s[n..])
  }

  /** "/s1/s2/.../sk" for the segments s1..sk; empty for no segments. */
  function PathOf(segs: seq<string>): string
  {
    if |segs| == 0 then "" else "/" + segs[0] + PathOf(segs[1..])
  }

  /** The path with the given segments: the root when there are none. */
  function AsPath(segs: seq<string>): string
  {
    if |segs| == 0 then Root else PathOf(segs)
  }

  /** A path as the cache builds them: the root, or "/s1/.../sk" with every
      segment a valid name. */
  predicate Canonical(p: string)
  {
    p == Root || (|Tokens(p)| > 0 && PathOf(Tokens(p)) == p)
  }

  /** The characters of `s` other than '/'. */
  function Strip(s: string): string
  {
    if |s| == 0 then "" else (if s[0] == '/' then "" else [s[0]]) + Strip(s[1..])
  }

  /** The segments written one after another. */
  function Concat(segs: seq<string>): string
  {
    if |segs| == 0 then "" else segs[0] + Concat(segs[1..])
  }

  lemma StripAppend(a: string, b: string)
    ensures Strip(a + b) == Strip(a) + Strip(b)
  {
    if |a| > 0 {
      assert (a + b)[1..] == a[1..] + b;
      StripAppend(a[1..], b);
    } else {
      assert a + b == b;
    }
  }

  lemma StripNoSlash(a: string)
    requires '/' !in a
    ensures Strip(a) == a
  {
    if |a| > 0 {
      assert a[0] in a;
      assert forall k :: 0 <= k < |a[1..]| ==> a[1..][k] == a[k + 1];
      StripNoSlash(a[1..]);
      assert a == [a[0]] + a[1..];
    }
  }

  /** The tokenizer loses nothing but slashes: its tokens, written one after
      another, are the path with every '/' removed. */
  lemma {:induction false} TokensCoverText(s: string)
    ensures Concat(Tokens(s)) == Strip(s)
    decreases |s|
  {
    if |s| == 0 {
    } else if s[0] == '/' {
      TokensCoverText(s[1..]);
    } else {
      var n := RunLength(s);
      TokensCoverText(s[n..]);
      StripLeadingName(s);
      assert Tokens(s) == [s[..n]] + Tokens(s[n..]);
    }
  }

  /** A leading name survives stripping unchanged. */
  lemma StripLeadingName(s: string)
    ensures Strip(s) == s[..RunLength(s)] + Strip(s[RunLength(s)..])
  {
    var n := RunLength(s);
    assert s == s[..n] + s[n..];
    StripAppend(s[..n], s[n..]);
    StripNoSlash(s[..n]);
  }

  lemma RunLengthOfName(a: string, b: string)
    requires '/' !in a
    requires |b| == 0 || b[0] == '/'
    ensures RunLength(a + b) == |a|
  {
    if |a| > 0 {
      assert (a + b)[1..] == a[1..] + b;
      RunLengthOfName(a[1..], b);
    } else {
      assert a + b == b;
    }
  }

  lemma PathOfStartsWithSlash(segs: seq<string>)
    ensures |PathOf(segs)| == 0 || PathOf(segs)[0] == '/'
  {
  }

  /** Tokenizing a path built from valid segments gives back the segments. */
  lemma {:induction false} TokensOfPath(segs: seq<string>)
    requires ValidNames(segs)
    ensures Tokens(PathOf(segs)) == segs
  {
    if |segs| > 0 {
      PathOfStartsWithSlash(segs[1..]);
      TokensOfJoin(segs[0], PathOf(segs[1..]));
      TokensOfPath(segs[1..]);
      assert segs == [segs[0]] + segs[1..];
    }
  }

  /** A '/', a valid name and then a '/'-led rest tokenize to the name
      followed by the rest's tokens. */
  lemma TokensOfJoin(a: string, b: string)
    requires ValidName(a) && (|b| == 0 || b[0] == '/')
    ensures Tokens("/" + a + b) == [a] + Tokens(b)
  {
    var s := "/" + a + b;
    assert s[1..] == a + b;
    RunLengthOfName(a, b);
    assert (a + b)[..|a|] == a;
    assert (a + b)[|a|..] == b;
    assert Tokens(a + b) == [a] + Tokens(b);
  }

  lemma PathOfSnoc(segs: seq<string>, n: string)
    ensures PathOf(segs + [n]) == PathOf(segs) + "/" + n
  {
    if |segs| > 0 {
      assert (segs + [n])[1..] == segs[1..] + [n];
      PathOfSnoc(segs[1..], n);
    } else {
      assert PathOf([n]) == "/" + n + PathOf([]);
    }
  }

  lemma PathOfLength(segs: seq<string>)
    requires ValidNames(segs)
    ensures |PathOf(segs)| >= 2 * |segs|
  {
  }

  /** Every path built from valid segments is canonical, and its tokens are
      those segments. */
  lemma AsPathCanonical(segs: seq<string>)
    requires ValidNames(segs)
    ensures Canonical(AsPath(segs))
    ensures Tokens(AsPath(segs)) == segs
  {
    if |segs| == 0 {
      assert Tokens(Root) == Tokens(Root[1..]);
    } else {
      TokensOfPath(segs);
    }
  }

  /** A canonical path is the path of its own tokens. */
  lemma CanonicalIsAsPath(p: string)
    requires Canonical(p)
    ensures p == AsPath(Tokens(p))
  {
    if p == Root {
      assert Tokens(Root) == Tokens(Root[1..]);
    }
  }

  lemma {:induction false} LastSlashOfJoin(a: string, n: string)
    requires '/' !in n
    ensures LastSlash(a + "/" + n) == |a|
    decreases |n|
  {
    var s := a + "/" + n;
    if |n| > 0 {
      var m := n[..|n| - 1];
      assert s[..|s| - 1] == a + "/" + m;
      assert s[|s| - 1] == n[|n| - 1] && n[|n| - 1] in n;
      assert LastSlash(s) == LastSlash(a + "/" + m);
      assert '/' !in m by {
        forall k | 0 <= k < |m|
          ensures m[k] != '/'
        {
          assert m[k] == n[k] && n[k] in n;
        }
      }
      LastSlashOfJoin(a, m);
    } else {
      assert s[|s| - 1] == '/';
    }
  }

  /** A canonical path other than the root ends in a name character. */
  lemma CanonicalShape(p: string)
    requires Canonical(p)
    ensures p == Root || (|p| > 0 && p[|p| - 1] != '/')
  {
    if p != Root {
      var segs := Tokens(p);
      var init := segs[..|segs| - 1];
      var last := segs[|segs| - 1];
      assert segs == init + [last];
      PathOfSnoc(init, last);
      assert last[|last| - 1] in last;
    }
  }

  /** `getParent(getFullPath(p, c)) == p` whenever `p` is the root or does not end
      in '/', and `c` contains no '/' (and is non-empty under the root, where
      `getFullPath("/", "")` is the root itself). */
  lemma ParentOfFullPath(p: string, c: string)
    requires p == Root || (|p| > 0 && p[|p| - 1] != '/')
    requires '/' !in c
    requires p == Root ==> |c| > 0
    ensures ParentPath(FullPath(p, c)) == Some(p)
  {
    if p == Root {
      assert FullPath(p, c) == "" + "/" + c;
      LastSlashOfJoin("", c);
    } else {
      assert FullPath(p, c) == p + "/" + c;
      LastSlashOfJoin(p, c);
      assert (p + "/" + c)[..|p|] == p;
    }
  }

  /** The name derived from `getFullPath(p, c)` is `c`, unless the full path is
      the root itself. */
  lemma NameOfFullPath(p: string, c: string)
    requires '/' !in c
    requires FullPath(p, c) != Root
    ensures NameOf(FullPath(p, c)) == c
  {
    var a := if p == Root then "" else p;
    assert FullPath(p, c) == a + "/" + c;
    LastSlashOfJoin(a, c);
    assert (a + "/" + c)[|a| + 1..] == c;
  }

  /** `getFullPath` under the path of some segments is the path with one more segment. */
  lemma FullPathAsPath(segs: seq<string>, n: string)
    requires ValidNames(segs) && ValidName(n)
    ensures FullPath(AsPath(segs), n) == AsPath(segs + [n])
  {
    if |segs| == 0 {
      assert segs + [n] == [n];
      assert PathOf([n]) == "/" + n + PathOf([]);
    } else {
      PathOfLength(segs);
      PathOfSnoc(segs, n);
    }
  }

  /** Appending a valid name to a canonical path gives a longer canonical path
      whose tokens gain exactly that name. */
  lemma FullPathCanonical(p: string, n: string)
    requires Canonical(p) && ValidName(n)
    ensures Canonical(FullPath(p, n))
    ensures Tokens(FullPath(p, n)) == Tokens(p) + [n]
    ensures |FullPath(p, n)| > |p|
  {
    CanonicalIsAsPath(p);
    FullPathAsPath(Tokens(p), n);
    AsPathCanonical(Tokens(p) + [n]);
  }

  /** The converse round trip: a canonical non-root path is the full path of its
      parent and its name, and its parent drops exactly its last token. */
  lemma {:induction false} SplitPath(q: string)
    requires Canonical(q) && q != Root
    ensures ParentPath(q).Some?
    ensures var segs := Tokens(q);
            |segs| > 0
            && ParentPath(q).value == AsPath(segs[..|segs| - 1])
            && NameOf(q) == segs[|segs| - 1]
            && FullPath(ParentPath(q).value, NameOf(q)) == q
  {
    var segs := Tokens(q);
    var init := segs[..|segs| - 1];
    var last := segs[|segs| - 1];
    assert segs == init + [last];
    CanonicalIsAsPath(q);
    FullPathAsPath(init, last);
    assert q == FullPath(AsPath(init), last);
    AsPathCanonical(init);
    CanonicalShape(AsPath(init));
    ParentOfFullPath(AsPath(init), last);
    NameOfFullPath(AsPath(init), last);
  }

  /** The parent of a canonical non-root path is canonical and has one token less. */
  lemma ParentCanonical(q: string)
    requires Canonical(q) && q != Root
    ensures ParentPath(q).Some?
    ensures Canonical(ParentPath(q).value)
    ensures Tokens(ParentPath(q).value) == Tokens(q)[..|Tokens(q)| - 1]
  {
    SplitPath(q);
    AsPathCanonical(Tokens(q)[..|Tokens(q)| - 1]);
  }
}
