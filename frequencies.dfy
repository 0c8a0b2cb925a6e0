/** Character counting: `calculate_character_frequencies`. */
module Frequencies {
  import opened HuffmanTypes

  /** A Python dict from characters to counts: its keys in insertion order, and the mapping. */
  datatype FreqTable = FreqTable(order: seq<char>, count: map<char, nat>)
  {
    /** The keys are distinct and are exactly the mapping's domain. */
    predicate Valid() {
      NoDuplicates(order) && (forall c :: c in count <==> c in order)
    }
  }

  /** The number of times `c` occurs in `s`. */
  function Occurrences(s: string, c: char): nat {
    if s == [] then 0
    else Occurrences(s[..|s| - 1], c) + (if s[|s| - 1] == c then 1 else 0)
  }

  /** One turn of the counting loop: `frequency_dict[char] = frequency_dict.get(char, 0) + 1`.
      A character seen for the first time becomes the last key. */
  function Bump(f: FreqTable, c: char): (r: FreqTable)
    ensures f.Valid() ==> r.Valid()
    ensures forall k :: k in r.count <==> k in f.count || k == c
    ensures r.count[c] == (if c in f.count then f.count[c] else 0) + 1
    ensures forall k | k in f.count && k != c :: r.count[k] == f.count[k]
    ensures f.order <= r.order && |r.order| <= |f.order| + 1
  {
    var n := if c in f.count then f.count[c] else 0;
    FreqTable(if c in f.count then f.order else f.order + [c], f.count[c := n + 1])
  }

  /** The table the counting loop holds once it has read all of `text`: a valid dict whose keys
      are exactly the characters of `text`. */
  function Tally(text: string): (f: FreqTable)
    ensures f.Valid()
    ensures forall c :: c in f.count <==> c in text
  {
    if text == [] then FreqTable([], map[])
    else
      var f := Tally(text[..|text| - 1]);
      assert forall c :: c in text <==> c in text[..|text| - 1] || c == text[|text| - 1] by {
        assert text == text[..|text| - 1] + [text[|text| - 1]];
      }
      Bump(f, text[|text| - 1])
  }

  /** `sum(count[k] * w(k) for k in order)`. */
  function Weighted(order: seq<char>, count: map<char, nat>, w: char -> nat): nat
    requires forall c | c in order :: c in count
  {
    if order == [] then 0 else count[order[0]] * w(order[0]) + Weighted(order[1..], count, w)
  }

  function One(c: char): nat { 1 }

  /** The sum of all counts of a table. */
  function Total(f: FreqTable): nat
    requires f.Valid()
  {
    Weighted(f.order, f.count, One)
  }

  /** `sum(w(c) for c in s)`. */
  function SumOver(s: string, w: char -> nat): nat {
    if s == [] then 0 else SumOver(s[..|s| - 1], w) + w(s[|s| - 1])
  }

  /** `calculate_character_frequencies`: one pass over the text, bumping each character's count. */
  method CountFrequencies(text: string) returns (f: FreqTable)
    ensures f == Tally(text)
    ensures f.Valid()
    ensures forall c :: c in f.count <==> c in text
    ensures forall c :: c in f.count ==> f.count[c] == Occurrences(text, c)
    ensures Total(f) == |text|
  {
    f := FreqTable([], map[]);
    var i := 0;
    while i < |text|
      invariant 0 <= i <= |text|
      invariant f == Tally(text[..i])
    {
      TallyStep(text, i);
      f := Bump(f, text[i]);
      i := i + 1;
    }
    assert text[..|text|] == text;
    TallyFacts(text);
  }

  /** Reading one more character of the text is one more turn of the loop. */
  lemma TallyStep(text: string, i: nat)
    requires i < |text|
    ensures Tally(text[..i + 1]) == Bump(Tally(text[..i]), text[i])
  {
    var seen := text[..i + 1];
    assert seen[..i] == text[..i] && seen[i] == text[i];
  }

  /** What the counting loop promises of its final table, gathered for `Tally`. */
  lemma TallyFacts(text: string)
    ensures var f := Tally(text);
      && (forall c :: c in f.count ==> f.count[c] == Occurrences(text, c))
      && Total(f) == |text|
  {
    TallyCounts(text);
    TallySum(text);
  }

  /** Each character's count in the table is its number of occurrences in the text; a
      character missing from the table does not occur at all. */
  lemma {:induction false} TallyCounts(text: string)
    ensures forall c :: Occurrences(text, c) == (if c in Tally(text).count then Tally(text).count[c] else 0)
  {
    if text != [] {
      TallyCounts(text[..|text| - 1]);
    }
  }

  lemma {:induction false} WeightedAppend(order: seq<char>, c: char, count: map<char, nat>, w: char -> nat)
    requires forall k | k in order + [c] :: k in count
    ensures Weighted(order + [c], count, w) == Weighted(order, count, w) + count[c] * w(c)
  {
    if order != [] {
      assert (order + [c])[1..] == order[1..] + [c];
      WeightedAppend(order[1..], c, count, w);
    }
  }

  lemma {:induction false} WeightedFrame(order: seq<char>, count: map<char, nat>, c: char, n: nat, w: char -> nat)
    requires forall k | k in order :: k in count
    requires c !in order
    ensures Weighted(order, count[c := n], w) == Weighted(order, count, w)
  {
    if order != [] {
      WeightedFrame(order[1..], count, c, n, w);
    }
  }

  lemma {:induction false} WeightedBump(order: seq<char>, count: map<char, nat>, c: char, w: char -> nat)
    requires forall k | k in order :: k in count
    requires NoDuplicates(order) && c in order
    ensures Weighted(order, count[c := count[c] + 1], w) == Weighted(order, count, w) + w(c)
  {
    var count' := count[c := count[c] + 1];
    assert NoDuplicates(order[1..]) by {
      assert order == [order[0]] + order[1..];
      NoDuplicatesSplit([order[0]], order[1..]);
    }
    if order[0] == c {
      assert c !in order[1..] by {
        assert order == [order[0]] + order[1..];
        NoDuplicatesSplit([order[0]], order[1..]);
      }
      WeightedFrame(order[1..], count, c, count[c] + 1, w);
      assert count'[c] * w(c) == count[c] * w(c) + w(c);
    } else {
      WeightedBump(order[1..], count, c, w);
    }
  }

  /** Weighting each key's count by `w` adds up to weighting each character of the text by
      `w`: the counts in the table account for every character exactly once. */
  lemma {:induction false} TallyWeighted(text: string, w: char -> nat)
    ensures Weighted(Tally(text).order, Tally(text).count, w) == SumOver(text, w)
  {
    if text != [] {
      var prefix, c := text[..|text| - 1], text[|text| - 1];
      TallyWeighted(prefix, w);
      BumpWeighted(Tally(prefix), c, w);
    }
  }

  /** One turn of the counting loop adds `w(c)` to the weighted sum of the table. */
  lemma BumpWeighted(f: FreqTable, c: char, w: char -> nat)
    requires f.Valid()
    ensures Bump(f, c).Valid()
    ensures Weighted(Bump(f, c).order, Bump(f, c).count, w) == Weighted(f.order, f.count, w) + w(c)
  {
    if c in f.count {
      WeightedBump(f.order, f.count, c, w);
    } else {
      var count' := f.count[c := 1];
      WeightedAppend(f.order, c, count', w);
      assert count'[c] * w(c) == w(c);
      WeightedFrame(f.order, f.count, c, 1, w);
    }
  }

  lemma {:induction false} SumOverOne(s: string)
    ensures SumOver(s, One) == |s|
  {
    if s != [] {
      SumOverOne(s[..|s| - 1]);
    }
  }

  /** The counts add up to the length of the text. */
  lemma TallySum(text: string)
    ensures Total(Tally(text)) == |text|
  {
    TallyWeighted(text, One);
    SumOverOne(text);
  }
}
