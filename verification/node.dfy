/** The node record `ZVNodeImpl`: identity (path and derived name) plus the
    three observable properties `data`, `exists` and `stat`. Every setter
    returns the updated record together with the property changes it fires. */
module ZNode {
  import opened Base
  import Paths

  /** The server's version metadata, compared and copied field by field. */
  datatype Stat = Stat(
    czxid: int, mzxid: int, ctime: int, mtime: int,
    version: int, cversion: int, aversion: int,
    ephemeralOwner: int, dataLength: int, numChildren: int, pzxid: int)

  /** A cached record; `live` is the source's `exists` flag (a keyword here).
      `data` and `stat` are nullable in the source. */
  datatype Node = Node(
    path: string, name: string, live: bool,
    data: Option<Bytes>, stat: Option<Stat>)

  /** A property-change notification: the property, its old and its new value. */
  datatype Change =
    | DataChange(oldData: Option<Bytes>, newData: Option<Bytes>)
    | ExistsChange(oldExists: bool, newExists: bool)
    | StatChange(oldStat: Option<Stat>, newStat: Option<Stat>)

  /** A record after a setter, with the notifications the setter fired. */
  datatype Update = Update(node: Node, fired: seq<Change>)

  /** `ZVNodeImpl(String)`: a record for a path not known to exist. */
  function NewNode(path: string): (n: Node)
    ensures n.path == path && n.name == Paths.NameOf(path)
    ensures !n.live && n.data == None && n.stat == None
  {
    Node(path, Paths.NameOf(path), false, None, None)
  }

  /** `ZVNodeImpl(String, byte[])`: a record for a path read from the server. */
  function NewLiveNode(path: string, data: Option<Bytes>): (n: Node)
    ensures n.path == path && n.name == Paths.NameOf(path)
    ensures n.live && n.data == data && n.stat == None
  {
    Node(path, Paths.NameOf(path), true, data, None)
  }

  /** A record created for child `c` of `p` is named `c`; the root is named "/". */
  lemma RecordName(p: string, c: string, d: Option<Bytes>)
    requires Paths.ValidName(c)
    ensures NewNode(Paths.FullPath(p, c)).name == c
    ensures NewLiveNode(Paths.FullPath(p, c), d).name == c
    ensures NewNode(Paths.Root).name == Paths.Root
  {
    assert |Paths.FullPath(p, c)| >= 2;
    Paths.NameOfFullPath(p, c);
  }

  /** `setData`: stores `d`; fires one `data` change exactly when the content
      differs (null-aware, as `Arrays.equals`). */
  function SetData(n: Node, d: Option<Bytes>): (u: Update)
    ensures u.node.data == d
    ensures u.node.(data := n.data) == n
    ensures |u.fired| <= 1
    ensures |u.fired| == 1 <==> n.data != d
    ensures |u.fired| == 1 ==> u.fired[0] == DataChange(n.data, d)
  {
    if n.data != d then Update(n.(data := d), [DataChange(n.data, d)])
    else Update(n, [])
  }

  /** `setExists`: fires one `exists` change, whose old value is `!b`, exactly
      when `b` differs from the current flag. */
  function SetExists(n: Node, b: bool): (u: Update)
    ensures u.node.live == b
    ensures u.node.(live := n.live) == n
    ensures |u.fired| <= 1
    ensures |u.fired| == 1 <==> n.live != b
    ensures |u.fired| == 1 ==> u.fired[0] == ExistsChange(!b, b)
  {
    if b != n.live then Update(n.(live := b), [ExistsChange(!b, b)])
    else Update(n, [])
  }

  /** `setStat`: stores `s` (null allowed); fires one `stat` change exactly when
      the stored stat differs from `s`. */
  function SetStat(n: Node, s: Option<Stat>): (u: Update)
    ensures u.node.stat == s
    ensures u.node.(stat := n.stat) == n
    ensures |u.fired| <= 1
    ensures |u.fired| == 1 <==> n.stat != s
    ensures |u.fired| == 1 ==> u.fired[0] == StatChange(n.stat, s)
  {
    if n.stat != s then Update(n.(stat := s), [StatChange(n.stat, s)])
    else Update(n, [])
  }

  /** `getData`: a copy of the stored payload; null exactly when none is stored. */
  function GetData(n: Node): (r: Option<Bytes>)
    ensures r.None? <==> n.data.None?
    ensures r.Some? ==> r.value == n.data.value
  {
    n.data
  }

  /** `getStat`: a copy of the stored stat. */
  function GetStat(n: Node): (r: Option<Stat>)
    ensures r.None? <==> n.stat.None?
    ensures r.Some? ==> r.value == n.stat.value
  {
    n.stat
  }

  /** Reading back after writing gives the written value, and writing the same
      value a second time is silent. */
  lemma SettersReadBack(n: Node, d: Option<Bytes>, b: bool, s: Option<Stat>)
    ensures GetData(SetData(n, d).node) == d
    ensures SetData(SetData(n, d).node, d) == Update(SetData(n, d).node, [])
    ensures SetExists(SetExists(n, b).node, b) == Update(SetExists(n, b).node, [])
    ensures GetStat(SetStat(n, s).node) == s
    ensures SetStat(SetStat(n, s).node, s) == Update(SetStat(n, s).node, [])
  {
  }

  /** `equals`: two records are equal exactly when their paths are. */
  predicate Equals(a: Node, b: Node)
    ensures Equals(a, b) ==> HashCode(a) == HashCode(b)
    ensures a == b ==> Equals(a, b)
  {
    a.path == b.path
  }

  /** Two's-complement truncation of an integer to Java's 32-bit `int`. */
  function ToInt32(x: int): (r: int)
    ensures -0x8000_0000 <= r < 0x8000_0000
    ensures (r - x) % 0x1_0000_0000 == 0
  {
    var m := x % 0x1_0000_0000;
    if m >= 0x8000_0000 then m - 0x1_0000_0000 else m
  }

  /** `String.hashCode`: `h = 31 * h + c` over the characters, in 32-bit
      arithmetic that wraps around. */
  function StringHash(s: string): (h: int)
    ensures -0x8000_0000 <= h < 0x8000_0000
  {
    if |s| == 0 then 0
    else ToInt32(31 * StringHash(s[..|s| - 1]) + (s[|s| - 1] as int))
  }

  /** `hashCode`: the hash of the path. */
  function HashCode(n: Node): (h: int)
    ensures -0x8000_0000 <= h < 0x8000_0000
    ensures h == ToInt32(Polynomial(n.path))
  {
    StringHashIsTruncatedPolynomial(n.path);
    StringHash(n.path)
  }

  /** The same polynomial without wrap-around: sum of `s[i] * 31^(|s|-1-i)`. */
  function Polynomial(s: string): int
  {
    if |s| == 0 then 0 else 31 * Polynomial(s[..|s| - 1]) + (s[|s| - 1] as int)
  }

  /** Two integers that differ by a multiple of 2^32 truncate alike. */
  lemma ToInt32Congruent(x: int, y: int)
    requires (x - y) % 0x1_0000_0000 == 0
    ensures ToInt32(x) == ToInt32(y)
  {
    var M := 0x1_0000_0000;
    var k := (x - y) / M;
    assert x == y + M * k;
    assert x % M == y % M by {
      ModShift(y, k);
    }
  }

  lemma ModShift(y: int, k: int)
    ensures (y + 0x1_0000_0000 * k) % 0x1_0000_0000 == y % 0x1_0000_0000
  {
    var M := 0x1_0000_0000;
    var q := y / M;
    var r := y % M;
    assert y == M * q + r;
    assert y + M * k == M * (q + k) + r;
  }

  /** Wrapping after every step, as the Java loop does, equals wrapping the
      exact polynomial once at the end. */
  lemma {:induction false} StringHashIsTruncatedPolynomial(s: string)
    ensures StringHash(s) == ToInt32(Polynomial(s))
  {
    if |s| > 0 {
      var t := s[..|s| - 1];
      var c := s[|s| - 1] as int;
      StringHashIsTruncatedPolynomial(t);
      var h := StringHash(t);
      var p := Polynomial(t);
      var M := 0x1_0000_0000;
      assert (h - p) % M == 0;
      var k := (h - p) / M;
      assert h == p + M * k;
      assert (31 * h + c) - (31 * p + c) == M * (31 * k);
      ModShift(0, 31 * k);
      ToInt32Congruent(31 * h + c, 31 * p + c);
    }
  }

  /** Equal records hash alike, and equality is an equivalence. */
  lemma EqualsContract(a: Node, b: Node, c: Node)
    ensures Equals(a, a)
    ensures Equals(a, b) ==> Equals(b, a)
    ensures Equals(a, b) && Equals(b, c) ==> Equals(a, c)
    ensures Equals(a, b) ==> HashCode(a) == HashCode(b)
  {
  }

  /** A record keeps its identity, and so its hash, through every setter. */
  lemma SettersKeepIdentity(n: Node, d: Option<Bytes>, b: bool, s: Option<Stat>)
    ensures Equals(n, SetData(n, d).node) && HashCode(SetData(n, d).node) == HashCode(n)
    ensures Equals(n, SetExists(n, b).node) && HashCode(SetExists(n, b).node) == HashCode(n)
    ensures Equals(n, SetStat(n, s).node) && HashCode(SetStat(n, s).node) == HashCode(n)
  {
  }
}
