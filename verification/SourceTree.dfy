/** The directory tree an image is made of, as `fs.Open`, `Stat` and `ReadDir`
    show it, and the order in which the scan enumerates one directory. */
module SourceTree {
  import opened Wrappers
  import opened Bytes
  import opened Records

  type Name = seq<Byte>

  /** A path below the image root, as its components. */
  type Path = seq<Name>

  datatype Node =
    | FileNode(stamp: Stamp, data: seq<Byte>)
    | DirNode(stamp: Stamp, entries: seq<Entry>)

  datatype Entry = Entry(name: Name, node: Node)

  predicate DistinctNames(es: seq<Entry>) {
    forall i, j :: 0 <= i < j < |es| ==> es[i].name != es[j].name
  }

  /** What a file system guarantees: siblings have different names. */
  ghost predicate ValidTree(n: Node) {
    n.DirNode? ==>
      && DistinctNames(n.entries)
      && forall e :: e in n.entries ==> ValidTree(e.node)
  }

  // ----- looking up paths

  function Child(es: seq<Entry>, name: Name): Option<Node> {
    if es == [] then None
    else if es[0].name == name then Some(es[0].node)
    else Child(es[1..], name)
  }

  function Lookup(n: Node, p: Path): Option<Node>
    decreases |p|
  {
    if p == [] then Some(n)
    else if n.FileNode? then None
    else
      match Child(n.entries, p[0])
      case None => None
      case Some(c) => Lookup(c, p[1..])
  }

  predicate IsDirAt(n: Node, p: Path) {
    Lookup(n, p).Some? && Lookup(n, p).value.DirNode?
  }

  lemma {:induction false} LookupSnoc(n: Node, p: Path, name: Name)
    requires IsDirAt(n, p)
    ensures Lookup(n, p + [name]) == Child(Lookup(n, p).value.entries, name)
    decreases |p|
  {
    if p == [] {
      assert (p + [name])[1..] == [];
    } else {
      LookupSnoc(Child(n.entries, p[0]).value, p[1..], name);
      assert (p + [name])[1..] == p[1..] + [name];
    }
  }

  lemma {:induction false} ChildFound(es: seq<Entry>, k: nat)
    requires k < |es| && DistinctNames(es)
    ensures Child(es, es[k].name) == Some(es[k].node)
  {
    if k > 0 {
      assert es[0].name != es[k].name;
      ChildFound(es[1..], k - 1);
    }
  }

  lemma {:induction false} ChildIsEntry(es: seq<Entry>, name: Name)
    requires Child(es, name).Some?
    ensures exists e :: e in es && e.name == name && e.node == Child(es, name).value
  {
    if es[0].name == name {
      assert es[0] in es;
    } else {
      ChildIsEntry(es[1..], name);
    }
  }

  lemma {:induction false} LookupValid(n: Node, p: Path)
    requires ValidTree(n) && Lookup(n, p).Some?
    ensures ValidTree(Lookup(n, p).value)
    decreases |p|
  {
    if p != [] {
      ChildIsEntry(n.entries, p[0]);
      LookupValid(Child(n.entries, p[0]).value, p[1..]);
    }
  }

  // ----- the sorted enumeration of one directory

  /** `strings.Compare(a, b) <= 0`. */
  predicate LexLeq(a: Name, b: Name) {
    a == [] || (b != [] && (a[0] < b[0] || (a[0] == b[0] && LexLeq(a[1..], b[1..]))))
  }

  lemma {:induction false} LexTotal(a: Name, b: Name)
    ensures LexLeq(a, b) || LexLeq(b, a)
    ensures LexLeq(a, b) && LexLeq(b, a) ==> a == b
  {
    if a != [] && b != [] {
      LexTotal(a[1..], b[1..]);
      assert a == [a[0]] + a[1..] && b == [b[0]] + b[1..];
    }
  }

  lemma {:induction false} LexTransitive(a: Name, b: Name, c: Name)
    requires LexLeq(a, b) && LexLeq(b, c)
    ensures LexLeq(a, c)
  {
    if a != [] && a[0] == b[0] == c[0] {
      LexTransitive(a[1..], b[1..], c[1..]);
    }
  }

  predicate SortedByName(es: seq<Entry>) {
    forall i, j :: 0 <= i < j < |es| ==> LexLeq(es[i].name, es[j].name)
  }

  function InsertByName(e: Entry, es: seq<Entry>): seq<Entry> {
    if es == [] || LexLeq(e.name, es[0].name) then [e] + es else [es[0]] + InsertByName(e, es[1..])
  }

  /** `slices.SortFunc` by name. */
  function SortByName(es: seq<Entry>): seq<Entry> {
    if es == [] then [] else InsertByName(es[0], SortByName(es[1..]))
  }

  lemma {:induction false} InsertSorts(e: Entry, es: seq<Entry>)
    requires SortedByName(es)
    ensures SortedByName(InsertByName(e, es))
    ensures multiset(InsertByName(e, es)) == multiset{e} + multiset(es)
  {
    if es == [] {
    } else if LexLeq(e.name, es[0].name) {
      forall j | 0 <= j < |es| ensures LexLeq(e.name, es[j].name) {
        if j > 0 { LexTransitive(e.name, es[0].name, es[j].name); }
      }
    } else {
      LexTotal(e.name, es[0].name);
      InsertSorts(e, es[1..]);
      var rest := InsertByName(e, es[1..]);
      assert es == [es[0]] + es[1..];
      forall j | 0 <= j < |rest| ensures LexLeq(es[0].name, rest[j].name) {
        assert rest[j] in multiset(rest);
      }
    }
  }

  lemma {:induction false} SortSorts(es: seq<Entry>)
    ensures SortedByName(SortByName(es))
    ensures multiset(SortByName(es)) == multiset(es)
  {
    if es != [] {
      SortSorts(es[1..]);
      InsertSorts(es[0], SortByName(es[1..]));
      assert es == [es[0]] + es[1..];
    }
  }

  lemma SameFirst(a: seq<Entry>, b: seq<Entry>)
    requires SortedByName(a) && SortedByName(b) && DistinctNames(a)
    requires multiset(a) == multiset(b) && a != [] && b != []
    ensures a[0] == b[0]
  {
    assert a[0] in multiset(b) && b[0] in multiset(a);
    var i :| 0 <= i < |b| && b[i] == a[0];
    var j :| 0 <= j < |a| && a[j] == b[0];
    if j > 0 && i > 0 {
      assert LexLeq(a[0].name, a[j].name) && LexLeq(b[0].name, b[i].name);
      LexTotal(a[0].name, b[0].name);
    }
  }

  /** With distinct names there is only one sorted order, whatever the algorithm. */
  lemma {:induction false} SortedOrderUnique(a: seq<Entry>, b: seq<Entry>)
    requires SortedByName(a) && SortedByName(b) && DistinctNames(a)
    requires multiset(a) == multiset(b)
    ensures a == b
  {
    if a == [] {
      assert |b| == |multiset(b)| == |multiset(a)| == 0;
    } else {
      assert |b| == |multiset(b)| == |multiset(a)| == |a|;
      SameFirst(a, b);
      assert a == [a[0]] + a[1..] && b == [b[0]] + b[1..];
      assert multiset(a[1..]) == multiset(a) - multiset{a[0]};
      assert multiset(b[1..]) == multiset(b) - multiset{b[0]};
      SortedOrderUnique(a[1..], b[1..]);
    }
  }

  lemma SortKeepsEntries(es: seq<Entry>)
    requires DistinctNames(es)
    ensures DistinctNames(SortByName(es))
    ensures forall e :: e in SortByName(es) <==> e in es
  {
    SortSorts(es);
    var s := SortByName(es);
    forall e ensures e in s <==> e in es {
      assert e in s <==> e in multiset(s);
      assert e in es <==> e in multiset(es);
    }
    forall i, j | 0 <= i < j < |s| ensures s[i].name != s[j].name {
      if s[i].name == s[j].name {
        assert s[i] in es && s[j] in es;
        var a :| 0 <= a < |es| && es[a] == s[i];
        var b :| 0 <= b < |es| && es[b] == s[j];
        assert a == b;
        MultisetTwice(s, i, j);
        MultisetOnce(es, a);
      }
    }
  }

  lemma MultisetTwice(s: seq<Entry>, i: nat, j: nat)
    requires i < j < |s| && s[i] == s[j]
    ensures multiset(s)[s[i]] >= 2
  {
    assert s == s[..i] + [s[i]] + s[i + 1..j] + [s[j]] + s[j + 1..];
  }

  lemma MultisetOnce(s: seq<Entry>, i: nat)
    requires i < |s| && DistinctNames(s)
    ensures multiset(s)[s[i]] == 1
  {
    assert s == s[..i] + [s[i]] + s[i + 1..];
    assert s[i] !in s[..i] && s[i] !in s[i + 1..];
  }

  /** The files of an enumeration, and its directories, each in order. */
  function FilesOf(es: seq<Entry>): (r: seq<Entry>)
    ensures forall e :: e in r ==> e in es && e.node.FileNode?
  {
    if es == [] then [] else (if es[0].node.FileNode? then [es[0]] else []) + FilesOf(es[1..])
  }

  function DirsOf(es: seq<Entry>): (r: seq<Entry>)
    ensures forall e :: e in r ==> e in es && e.node.DirNode?
  {
    if es == [] then [] else (if es[0].node.DirNode? then [es[0]] else []) + DirsOf(es[1..])
  }

  lemma {:induction false} DirsOfDistinct(es: seq<Entry>)
    requires DistinctNames(es)
    ensures DistinctNames(DirsOf(es))
  {
    if es != [] {
      DirsOfDistinct(es[1..]);
    }
  }

  // ----- heights, for recursion over trees

  ghost function Height(n: Node): nat
    decreases n, 0
  {
    if n.FileNode? then 0 else 1 + MaxHeight(n.entries)
  }

  ghost function MaxHeight(es: seq<Entry>): nat
    decreases es, 0
  {
    if es == [] then 0
    else if Height(es[0].node) > MaxHeight(es[1..]) then Height(es[0].node)
    else MaxHeight(es[1..])
  }

  lemma {:induction false} HeightBelow(es: seq<Entry>, e: Entry)
    requires e in es
    ensures Height(e.node) <= MaxHeight(es)
  {
    if e != es[0] {
      HeightBelow(es[1..], e);
    }
  }

  /** The order of names: by the first byte in which they differ, and a prefix before what it
      is a prefix of. */
  lemma {:induction false} LexIs(a: Name, b: Name, common: Name, i: nat)
    requires i <= |a| && i <= |b| && a[..i] == b[..i] == common
    requires i < |a| && i < |b| ==> a[i] != b[i]
    ensures LexLeq(a, b) <==> i == |a| || (i < |b| && a[i] < b[i])
    decreases i
  {
    if i > 0 {
      assert a[0] == a[..i][0] && b[0] == b[..i][0];
      assert a[1..][..i - 1] == a[..i][1..] && b[1..][..i - 1] == b[..i][1..];
      LexIs(a[1..], b[1..], common[1..], i - 1);
    }
  }
}
