/** Values shared by every stage of the Huffman codec: bits, bytes, errors and the code tree. */
module HuffmanTypes {

  /** One bit of a code word; the source spells bits as the characters '0' and '1'. */
  type Bit = b: int | 0 <= b < 2

  /** One byte of the encoded file. */
  type Byte = b: int | 0 <= b < 256

  /** The ways the codec fails; each stands for an exception the source lets escape. */
  datatype Error =
    | InvalidInput            // IndexError: the tree is built from an empty frequency table
    | UnknownSymbol(c: char)  // KeyError: a character of the text has no code
    | MalformedStream         // AttributeError: a bit is read while the cursor sits on a lone-leaf root

  datatype Result<T> = Ok(value: T) | Err(error: Error)

  datatype Option<T> = None | Some(value: T)

  /** A Huffman tree node. A leaf holds a character and its frequency; an internal node holds
      a weight and two children, the left one reached by bit 0 and the right one by bit 1. */
  datatype Tree =
    | Leaf(sym: char, weight: nat)
    | Node(weight: nat, left: Tree, right: Tree)

  /** The characters at the leaves, from left to right. A tree has at least one leaf, and an
      internal node at least two. */
  function Symbols(t: Tree): (s: seq<char>)
    ensures |s| >= 1
    ensures t.Node? <==> |s| >= 2
  {
    match t
    case Leaf(c, _) => [c]
    case Node(_, l, r) => Symbols(l) + Symbols(r)
  }

  /** The weight invariant: every internal node weighs the sum of its two children. */
  predicate WellWeighted(t: Tree) {
    match t
    case Leaf(_, _) => true
    case Node(w, l, r) => w == l.weight + r.weight && WellWeighted(l) && WellWeighted(r)
  }

  /** Every leaf of `t` carries the count that `count` gives its character. */
  predicate LeavesAgree(t: Tree, count: map<char, nat>) {
    match t
    case Leaf(c, w) => c in count && count[c] == w
    case Node(_, l, r) => LeavesAgree(l, count) && LeavesAgree(r, count)
  }

  /** The node reached from `t` by following `path` (0 goes left, 1 goes right), or None when
      the path tries to go below a leaf. */
  function Descend(t: Tree, path: seq<Bit>): Option<Tree>
    decreases |path|
  {
    if path == [] then Some(t)
    else match t
      case Leaf(_, _) => None
      case Node(_, l, r) => Descend(if path[0] == 0 then l else r, path[1..])
  }

  /** `path` leads from `t` to a leaf holding `c`. */
  predicate LeadsTo(t: Tree, path: seq<Bit>, c: char) {
    var n := Descend(t, path);
    n.Some? && n.value.Leaf? && n.value.sym == c
  }

  /** Following `p + q` is following `p` and then `q` from wherever `p` ended. */
  lemma {:induction false} DescendAppend(t: Tree, p: seq<Bit>, q: seq<Bit>)
    ensures Descend(t, p + q) ==
      (if Descend(t, p).Some? then Descend(Descend(t, p).value, q) else None)
    decreases |p|
  {
    if p == [] {
      assert p + q == q;
    } else {
      assert (p + q)[0] == p[0];
      assert (p + q)[1..] == p[1..] + q;
      match t
      case Leaf(_, _) =>
      case Node(_, l, r) =>
        var child := if p[0] == 0 then l else r;
        DescendAppend(child, p[1..], q);
        assert Descend(t, p) == Descend(child, p[1..]);
        assert Descend(t, p + q) == Descend(child, p[1..] + q);
    }
  }

  predicate NoDuplicates<T(==)>(s: seq<T>) {
    forall i, j :: 0 <= i < j < |s| ==> s[i] != s[j]
  }

  /** The two halves of a duplicate-free concatenation are duplicate-free and disjoint. */
  lemma NoDuplicatesSplit<T>(a: seq<T>, b: seq<T>)
    requires NoDuplicates(a + b)
    ensures NoDuplicates(a) && NoDuplicates(b)
    ensures forall x :: x in a ==> x !in b
  {
    forall i, j | 0 <= i < j < |a| ensures a[i] != a[j] {
      assert (a + b)[i] == a[i] && (a + b)[j] == a[j];
    }
    forall i, j | 0 <= i < j < |b| ensures b[i] != b[j] {
      assert (a + b)[|a| + i] == b[i] && (a + b)[|a| + j] == b[j];
    }
    forall i, j | 0 <= i < |a| && 0 <= j < |b| ensures a[i] != b[j] {
      assert (a + b)[i] == a[i] && (a + b)[|a| + j] == b[j];
    }
  }

  /** A sequence without duplicates holds each value at most once. */
  lemma {:induction false} NoDuplicatesMultiplicity<T>(s: seq<T>)
    requires NoDuplicates(s)
    ensures forall x :: multiset(s)[x] <= 1
  {
    if s != [] {
      assert s == [s[0]] + s[1..];
      assert NoDuplicates(s[1..]) by {
        forall i, j | 0 <= i < j < |s[1..]| ensures s[1..][i] != s[1..][j] {
          assert s[1..][i] == s[i + 1] && s[1..][j] == s[j + 1];
        }
      }
      NoDuplicatesMultiplicity(s[1..]);
      assert s[0] !in s[1..] by {
        forall k | 0 <= k < |s[1..]| ensures s[1..][k] != s[0] {
          assert s[1..][k] == s[k + 1];
        }
      }
      assert multiset(s) == multiset{s[0]} + multiset(s[1..]);
    }
  }

  /** A rearrangement of a duplicate-free sequence is duplicate-free. */
  lemma NoDuplicatesPermutation<T>(a: seq<T>, b: seq<T>)
    requires multiset(a) == multiset(b) && NoDuplicates(b)
    ensures NoDuplicates(a)
  {
    NoDuplicatesMultiplicity(b);
    forall i, j | 0 <= i < j < |a| ensures a[i] != a[j] {
      assert a == a[..j] + a[j..];
      assert a[..j][i] == a[i] && a[j..][0] == a[j];
      assert multiset(a) == multiset(a[..j]) + multiset(a[j..]);
      assert multiset(a[..j])[a[i]] >= 1 && multiset(a[j..])[a[j]] >= 1;
      assert multiset(a)[a[i]] == multiset(b)[a[i]] <= 1;
      assert multiset(a[j..])[a[i]] == 0;
    }
  }
}
