/** Code assignment: `assign_huffman_codes`, a depth-first walk that records each leaf's path. */
module Codes {
  import opened HuffmanTypes

  /** `assign_huffman_codes(node, prefix, code_map)`: binds every leaf below `t` to `prefix`
      followed by its path from `t`, visiting left before right, on top of the bindings in `acc`. */
  function CodeTable(t: Tree, prefix: seq<Bit>, acc: map<char, seq<Bit>>): (m: map<char, seq<Bit>>)
    ensures forall c :: c in m <==> c in acc || c in Symbols(t)
  {
    match t
    case Leaf(c, _) => acc[c := prefix]
    case Node(_, l, r) => CodeTable(r, prefix + [1], CodeTable(l, prefix + [0], acc))
  }

  /** The top-level call: an empty prefix and a fresh, empty table on every call. */
  function AssignCodes(t: Tree): (m: map<char, seq<Bit>>)
    ensures forall c :: c in m <==> c in Symbols(t)
  {
    CodeTable(t, [], map[])
  }

  /** `a` is a prefix of `b`. */
  predicate IsPrefix(a: seq<Bit>, b: seq<Bit>) {
    |a| <= |b| && b[..|a|] == a
  }

  /** The walk leaves the binding of every character that is not in `t` as it was. */
  lemma {:induction false} CodeTableKeeps(t: Tree, prefix: seq<Bit>, acc: map<char, seq<Bit>>)
    ensures forall c | c in acc && c !in Symbols(t) :: CodeTable(t, prefix, acc)[c] == acc[c]
  {
    match t
    case Leaf(_, _) =>
    case Node(_, l, r) =>
      CodeTableKeeps(l, prefix + [0], acc);
      CodeTableKeeps(r, prefix + [1], CodeTable(l, prefix + [0], acc));
  }

  /** The walk binds each leaf of `t` to `prefix` followed by a path that leads from `t` to
      that leaf, and keeps every other binding of `acc`. */
  lemma CodeTableSpec(t: Tree, prefix: seq<Bit>, acc: map<char, seq<Bit>>)
    requires NoDuplicates(Symbols(t))
    ensures forall c | c in acc && c !in Symbols(t) :: CodeTable(t, prefix, acc)[c] == acc[c]
    ensures forall c | c in Symbols(t) ::
      var code := CodeTable(t, prefix, acc)[c];
      |prefix| <= |code| && code[..|prefix|] == prefix && LeadsTo(t, code[|prefix|..], c)
  {
    CodeTableKeeps(t, prefix, acc);
    forall c | c in Symbols(t)
      ensures var code := CodeTable(t, prefix, acc)[c];
        |prefix| <= |code| && code[..|prefix|] == prefix && LeadsTo(t, code[|prefix|..], c)
    {
      CodeTableAt(t, prefix, acc, c);
    }
  }

  /** The binding the walk makes for one leaf character `c`. */
  lemma {:induction false} CodeTableAt(t: Tree, prefix: seq<Bit>, acc: map<char, seq<Bit>>, c: char)
    requires NoDuplicates(Symbols(t)) && c in Symbols(t)
    ensures var code := CodeTable(t, prefix, acc)[c];
      |prefix| <= |code| && code[..|prefix|] == prefix && LeadsTo(t, code[|prefix|..], c)
  {
    match t
    case Leaf(_, _) =>
      assert Symbols(t) == [c];
      assert acc[c := prefix][c][|prefix|..] == [];
    case Node(_, l, r) =>
      NoDuplicatesSplit(Symbols(l), Symbols(r));
      var mid := CodeTable(l, prefix + [0], acc);
      var code := CodeTable(r, prefix + [1], mid)[c];
      assert CodeTable(t, prefix, acc)[c] == code;
      if c in Symbols(l) {
        CodeTableAt(l, prefix + [0], acc, c);
        assert code == mid[c] by {
          CodeTableKeeps(r, prefix + [1], mid);
        }
        StepDown(t, 0, prefix, code, c);
      } else {
        CodeTableAt(r, prefix + [1], mid, c);
        StepDown(t, 1, prefix, code, c);
      }
  }

  /** A code that extends `prefix + [b]` by a path from the child on side `b` to `c` extends
      `prefix` by a path from `t` to `c`. */
  lemma StepDown(t: Tree, b: Bit, prefix: seq<Bit>, code: seq<Bit>, c: char)
    requires t.Node?
    requires |prefix| + 1 <= |code| && code[..|prefix| + 1] == prefix + [b]
    requires LeadsTo(if b == 0 then t.left else t.right, code[|prefix| + 1..], c)
    ensures code[..|prefix|] == prefix && LeadsTo(t, code[|prefix|..], c)
  {
    assert code[..|prefix|] == code[..|prefix| + 1][..|prefix|];
    var path := code[|prefix|..];
    assert path[0] == b && path[1..] == code[|prefix| + 1..];
  }

  /** Each character of the tree gets a code, no other character does, and each code is the
      path from the root to that character's leaf. */
  lemma CodesAreLeafPaths(t: Tree)
    requires NoDuplicates(Symbols(t))
    ensures forall c :: c in AssignCodes(t) <==> c in Symbols(t)
    ensures forall c | c in AssignCodes(t) :: LeadsTo(t, AssignCodes(t)[c], c)
  {
    CodeTableSpec(t, [], map[]);
    forall c | c in AssignCodes(t) ensures LeadsTo(t, AssignCodes(t)[c], c) {
      assert AssignCodes(t)[c][0..] == AssignCodes(t)[c];
    }
  }

  /** A path that ends at a leaf cannot go on: no longer path starting with it reaches a leaf,
      and an equal one reaches the same leaf. */
  lemma LeafPathIsMaximal(t: Tree, p: seq<Bit>, c: char, q: seq<Bit>, d: char)
    requires LeadsTo(t, p, c) && LeadsTo(t, q, d) && IsPrefix(p, q)
    ensures p == q && c == d
  {
    var rest := q[|p|..];
    assert q == p + rest;
    DescendAppend(t, p, rest);
  }

  /** The codes are prefix-free: no character's code begins another character's code. */
  lemma CodesPrefixFree(t: Tree)
    requires NoDuplicates(Symbols(t))
    ensures forall c, d | c in AssignCodes(t) && d in AssignCodes(t) && c != d ::
      !IsPrefix(AssignCodes(t)[c], AssignCodes(t)[d])
  {
    var codes := AssignCodes(t);
    CodesAreLeafPaths(t);
    forall c, d | c in codes && d in codes && IsPrefix(codes[c], codes[d]) ensures c == d {
      LeafPathIsMaximal(t, codes[c], c, codes[d], d);
    }
  }

  /** A code is empty exactly when the root itself is a leaf: with two or more leaves every
      code has at least one bit, and a lone leaf gets the empty code. */
  lemma CodesEmptyOnlyAtLeafRoot(t: Tree)
    requires NoDuplicates(Symbols(t))
    ensures forall c | c in AssignCodes(t) :: AssignCodes(t)[c] == [] <==> t.Leaf?
  {
    CodesAreLeafPaths(t);
  }
}
