/** The Huffman codec over run values: `count_gray_frequencies`,
    `build_huffman_tree`, `generate_huffman_codes`, both
    `huffman_encode_rle` variants and the inverted code dictionary. */
module Huffman {
  import opened Common
  import opened RunLength
  import Binary

  /** `HuffmanNode`: a leaf carries a gray value, an internal node two
      children; both carry a weight `freq`. */
  datatype Node =
    | Leaf(gray: Sample, freq: nat)
    | Internal(freq: nat, left: Node, right: Node)

  /** The gray values at the leaves, left to right. */
  function Grays(t: Node): (grays: seq<Sample>)
  {
    match t
    case Leaf(g, _) => [g]
    case Internal(_, l, r) => Grays(l) + Grays(r)
  }

  /** Every internal node weighs the sum of its children. */
  predicate WellFormed(t: Node)
  {
    match t
    case Leaf(_, _) => true
    case Internal(f, l, r) => f == l.freq + r.freq && WellFormed(l) && WellFormed(r)
  }

  /** Every leaf carries the weight the frequency table gives its gray. */
  predicate WeightsFrom(t: Node, freq: map<Sample, nat>)
  {
    match t
    case Leaf(g, f) => g in freq && freq[g] == f
    case Internal(_, l, r) => WeightsFrom(l, freq) && WeightsFrom(r, freq)
  }

  /** No gray value sits at two leaves. */
  ghost predicate DistinctGrays(t: Node)
  {
    forall x :: multiset(Grays(t))[x] <= 1
  }

  /** What `build_huffman_tree` promises about its result: weights add up,
      and each gray of the table is exactly one leaf, carrying its weight.
      This is a structural property only: any merge order yields such a
      tree, so it does not say the tree is an optimal (Huffman) one. */
  predicate IsHuffmanTreeFor(t: Node, freq: map<Sample, nat>)
  {
    && WellFormed(t)
    && WeightsFrom(t, freq)
    && multiset(Grays(t)) == multiset(freq.Keys)
  }

  // ---- Frequencies ----

  /** The values that occur in a run list. */
  function ValueSet(rle: seq<Run>): (values: set<Sample>)
  {
    if rle == [] then {} else ValueSet(rle[..|rle| - 1]) + {rle[|rle| - 1].value}
  }

  /** The weight of value `v`: the sum of the lengths of its runs. */
  function Weight(rle: seq<Run>, v: Sample): (w: nat)
  {
    if rle == [] then 0
    else
      var last := rle[|rle| - 1];
      Weight(rle[..|rle| - 1], v) + (if last.value == v then last.count else 0)
  }

  lemma {:induction false} ValueSetMembers(rle: seq<Run>)
    ensures forall i :: 0 <= i < |rle| ==> rle[i].value in ValueSet(rle)
    ensures forall v :: v in ValueSet(rle) ==> exists i :: 0 <= i < |rle| && rle[i].value == v
  {
    if rle != [] {
      var p := rle[..|rle| - 1];
      ValueSetMembers(p);
      forall v | v in ValueSet(rle) ensures exists i :: 0 <= i < |rle| && rle[i].value == v {
        if v in ValueSet(p) {
          var i :| 0 <= i < |p| && p[i].value == v;
          assert rle[i].value == v;
        } else {
          assert rle[|rle| - 1].value == v;
        }
      }
    }
  }

  /** `count_gray_frequencies`: a `defaultdict(int)` that adds each run's
      length to its value's entry. Its keys are exactly the values that
      occur, each weighted by the total length of its runs. */
  method CountGrayFrequencies(rle: seq<Run>) returns (freq: map<Sample, nat>)
    ensures freq.Keys == ValueSet(rle)
    ensures forall v :: v in freq ==> freq[v] == Weight(rle, v)
  {
    freq := map[];
    for i := 0 to |rle|
      invariant freq.Keys == ValueSet(rle[..i])
      invariant forall v :: v in freq ==> freq[v] == Weight(rle[..i], v)
    {
      ghost var next := rle[..i + 1];
      assert next[..i] == rle[..i] && next[i] == rle[i];
      var value, count := rle[i].value, rle[i].count;
      if value !in freq {
        WeightOutside(rle[..i], value);
      }
      freq := freq[value := (if value in freq then freq[value] else 0) + count];
    }
    assert rle[..|rle|] == rle;
  }

  lemma {:induction false} WeightOutside(rle: seq<Run>, v: Sample)
    requires v !in ValueSet(rle)
    ensures Weight(rle, v) == 0
  {
    if rle != [] {
      WeightOutside(rle[..|rle| - 1], v);
    }
  }

  /** The weights of the values listed in `ks`, summed. */
  function SumWeights(ks: seq<Sample>, rle: seq<Run>): (total: nat)
  {
    if ks == [] then 0 else SumWeights(ks[..|ks| - 1], rle) + Weight(rle, ks[|ks| - 1])
  }

  lemma WeightSnoc(rle: seq<Run>, r: Run, v: Sample)
    ensures Weight(rle + [r], v) == Weight(rle, v) + (if r.value == v then r.count else 0)
  {
    assert (rle + [r])[..|rle|] == rle;
  }

  lemma {:induction false} SumWeightsSnoc(ks: seq<Sample>, rle: seq<Run>, r: Run)
    ensures SumWeights(ks, rle + [r]) == SumWeights(ks, rle) + r.count * multiset(ks)[r.value]
  {
    if ks != [] {
      var p: seq<Sample> := ks[..|ks| - 1];
      var k: Sample := ks[|ks| - 1];
      var v: Sample := r.value;
      var c: nat := r.count;
      var m: nat := multiset(p)[v];
      assert ks == p + [k];
      var e: nat := if k == v then 1 else 0;
      assert multiset(ks)[v] == m + e;
      calc {
        SumWeights(ks, rle + [r]);
      ==
        SumWeights(p, rle + [r]) + Weight(rle + [r], k);
      == { SumWeightsSnoc(p, rle, r); WeightSnoc(rle, r, k); assert c * e == (if k == v then c else 0); }
        SumWeights(p, rle) + c * m + Weight(rle, k) + c * e;
      == { Distribute(c, m, e); }
        SumWeights(ks, rle) + c * (m + e);
      }
    }
  }

  lemma Distribute(c: nat, m: nat, e: nat)
    ensures c * m + c * e == c * (m + e)
  {
  }

  lemma {:induction false} SumWeightsConcat(a: seq<Sample>, b: seq<Sample>, rle: seq<Run>)
    ensures SumWeights(a + b, rle) == SumWeights(a, rle) + SumWeights(b, rle)
  {
    if b != [] {
      var p := b[..|b| - 1];
      assert (a + b)[..|a + b| - 1] == a + p;
      assert (a + b)[|a + b| - 1] == b[|b| - 1];
      SumWeightsConcat(a, p, rle);
    } else {
      assert a + b == a;
    }
  }

  /** The frequency table loses no weight: over any duplicate-free listing
      of the values that occur, the weights add up to the total run length. */
  lemma {:induction false} FrequencyTotal(ks: seq<Sample>, rle: seq<Run>)
    requires forall x :: multiset(ks)[x] <= 1
    requires ValueSet(rle) <= set k | k in ks
    ensures SumWeights(ks, rle) == TotalCount(rle)
  {
    if rle == [] {
      SumWeightsZero(ks, rle);
    } else {
      var p, r := rle[..|rle| - 1], rle[|rle| - 1];
      assert rle == p + [r];
      FrequencyTotal(ks, p);
      SumWeightsSnoc(ks, p, r);
      assert r.value in ks;
      assert multiset(ks)[r.value] == 1;
    }
  }

  lemma {:induction false} SumWeightsZero(ks: seq<Sample>, rle: seq<Run>)
    requires rle == []
    ensures SumWeights(ks, rle) == 0
  {
    if ks != [] { SumWeightsZero(ks[..|ks| - 1], rle); }
  }

  /** A tree's weight is the sum of its leaves' weights. */
  lemma {:induction false} TreeWeight(t: Node, freq: map<Sample, nat>, rle: seq<Run>)
    requires WellFormed(t) && WeightsFrom(t, freq)
    requires forall v :: v in freq ==> freq[v] == Weight(rle, v)
    ensures t.freq == SumWeights(Grays(t), rle)
  {
    match t
    case Leaf(g, f) =>
      assert Grays(t)[..0] == [];
    case Internal(_, l, r) =>
      TreeWeight(l, freq, rle);
      TreeWeight(r, freq, rle);
      SumWeightsConcat(Grays(l), Grays(r), rle);
  }

  /** The root built from the frequencies of a run list weighs the total run
      length, i.e. the number of pixels. */
  lemma RootWeightIsTotal(t: Node, freq: map<Sample, nat>, rle: seq<Run>)
    requires IsHuffmanTreeFor(t, freq)
    requires freq.Keys == ValueSet(rle)
    requires forall v :: v in freq ==> freq[v] == Weight(rle, v)
    ensures t.freq == TotalCount(rle)
  {
    TreeWeight(t, freq, rle);
    assert forall x :: multiset(Grays(t))[x] <= 1 by {
      forall x ensures multiset(Grays(t))[x] <= 1 {
        assert multiset(freq.Keys)[x] <= 1;
      }
    }
    assert ValueSet(rle) <= set k | k in Grays(t) by {
      forall v | v in ValueSet(rle) ensures v in Grays(t) {
        assert v in multiset(freq.Keys);
      }
    }
    FrequencyTotal(Grays(t), rle);
  }

  // ---- Tree construction ----

  /** All gray values of the nodes on the heap, with multiplicity. */
  function HeapGrays(heap: seq<Node>): (grays: multiset<Sample>)
  {
    if heap == [] then multiset{} else HeapGrays(heap[..|heap| - 1]) + multiset(Grays(heap[|heap| - 1]))
  }

  lemma {:induction false} HeapGraysConcat(a: seq<Node>, b: seq<Node>)
    ensures HeapGrays(a + b) == HeapGrays(a) + HeapGrays(b)
  {
    if b != [] {
      var p := b[..|b| - 1];
      assert (a + b)[..|a + b| - 1] == a + p;
      assert (a + b)[|a + b| - 1] == b[|b| - 1];
      HeapGraysConcat(a, p);
    } else {
      assert a + b == a;
    }
  }

  /** The heap with the node at position `k` taken off. */
  function Without(heap: seq<Node>, k: nat): (rest: seq<Node>)
    requires k < |heap|
  {
    heap[..k] + heap[k + 1..]
  }

  /** Every node on the heap is a well-formed tree weighted from `freq`. */
  predicate HeapOk(heap: seq<Node>, freq: map<Sample, nat>)
  {
    forall t :: t in heap ==> WellFormed(t) && WeightsFrom(t, freq)
  }

  lemma WithoutOk(heap: seq<Node>, k: nat, freq: map<Sample, nat>)
    requires k < |heap| && HeapOk(heap, freq)
    ensures HeapOk(Without(heap, k), freq)
  {
    forall t | t in Without(heap, k) ensures WellFormed(t) && WeightsFrom(t, freq) {
      assert t in heap[..k] || t in heap[k + 1..];
    }
  }

  lemma PushOk(heap: seq<Node>, t: Node, freq: map<Sample, nat>)
    requires HeapOk(heap, freq) && WellFormed(t) && WeightsFrom(t, freq)
    ensures HeapOk(heap + [t], freq)
  {
  }

  lemma Decompose(heap: seq<Node>, k: nat)
    requires k < |heap|
    ensures heap == heap[..k] + ([heap[k]] + heap[k + 1..])
  {
    assert heap[k..] == [heap[k]] + heap[k + 1..];
    assert heap == heap[..k] + heap[k..];
  }

  /** Taking the node at position `k` off the heap takes its grays away. */
  lemma RemoveAt(heap: seq<Node>, k: nat)
    requires k < |heap|
    ensures HeapGrays(heap) == HeapGrays(Without(heap, k)) + multiset(Grays(heap[k]))
  {
    var a, x, b := heap[..k], heap[k], heap[k + 1..];
    Decompose(heap, k);
    assert HeapGrays([x]) == multiset(Grays(x)) by {
      assert [x][..0] == [];
    }
    calc {
      HeapGrays(heap);
    == { HeapGraysConcat(a, [x] + b); }
      HeapGrays(a) + HeapGrays([x] + b);
    == { HeapGraysConcat([x], b); }
      HeapGrays(a) + multiset(Grays(x)) + HeapGrays(b);
    == { HeapGraysConcat(a, b); }
      HeapGrays(a + b) + multiset(Grays(x));
    }
  }

  /** One round of the merge loop keeps the heap's nodes well formed. */
  lemma MergeKeepsOk(heap: seq<Node>, k1: nat, rest: seq<Node>, k2: nat, rest2: seq<Node>, freq: map<Sample, nat>)
    requires k1 < |heap| && rest == Without(heap, k1)
    requires k2 < |rest| && rest2 == Without(rest, k2)
    requires HeapOk(heap, freq)
    ensures HeapOk(rest2 + [Internal(heap[k1].freq + rest[k2].freq, heap[k1], rest[k2])], freq)
  {
    WithoutOk(heap, k1, freq);
    WithoutOk(rest, k2, freq);
    assert heap[k1] in heap && rest[k2] in rest;
    PushOk(rest2, Internal(heap[k1].freq + rest[k2].freq, heap[k1], rest[k2]), freq);
  }

  /** One round of the merge loop keeps the heap's grays. */
  lemma MergeKeepsGrays(heap: seq<Node>, k1: nat, rest: seq<Node>, k2: nat, rest2: seq<Node>)
    requires k1 < |heap| && rest == Without(heap, k1)
    requires k2 < |rest| && rest2 == Without(rest, k2)
    ensures HeapGrays(rest2 + [Internal(heap[k1].freq + rest[k2].freq, heap[k1], rest[k2])]) == HeapGrays(heap)
  {
    var merged := Internal(heap[k1].freq + rest[k2].freq, heap[k1], rest[k2]);
    RemoveAt(heap, k1);
    RemoveAt(rest, k2);
    HeapGraysConcat(rest2, [merged]);
    assert [merged][..0] == [];
  }

  lemma GraysNonEmpty(t: Node)
    ensures |Grays(t)| >= 1
  {
  }

  /** `heapq.heappop`: removes a node of least weight. `HuffmanNode.__lt__`
      compares weights only, so which of several least-weight nodes comes out
      is left open; `k` is the position it occupied. */
  method PopMin(heap: seq<Node>) returns (node: Node, rest: seq<Node>, ghost k: nat)
    requires |heap| > 0
    ensures k < |heap| && node == heap[k] && rest == Without(heap, k)
    ensures forall i :: 0 <= i < |heap| ==> node.freq <= heap[i].freq
  {
    var least := heap[0].freq;
    for i := 1 to |heap|
      invariant exists j :: 0 <= j < i && heap[j].freq == least
      invariant forall j :: 0 <= j < i ==> least <= heap[j].freq
    {
      if heap[i].freq < least {
        least := heap[i].freq;
      }
    }
    var j :| 0 <= j < |heap| && heap[j].freq == least;
    node, rest, k := heap[j], heap[..j] + heap[j + 1..], j;
  }

  /** The first loop of `build_huffman_tree`: one leaf per table entry,
      pushed in the dictionary's iteration order (left open here). */
  method InitialHeap(freq: map<Sample, nat>) returns (heap: seq<Node>)
    ensures HeapOk(heap, freq)
    ensures HeapGrays(heap) == multiset(freq.Keys)
    ensures forall t :: t in heap ==> t.Leaf?
  {
    heap := [];
    var todo := freq.Keys;
    while todo != {}
      invariant todo <= freq.Keys
      invariant HeapOk(heap, freq)
      invariant forall t :: t in heap ==> t.Leaf?
      invariant HeapGrays(heap) + multiset(todo) == multiset(freq.Keys)
      decreases todo
    {
      var gray :| gray in todo;
      HeapGraysConcat(heap, [Leaf(gray, freq[gray])]);
      heap := heap + [Leaf(gray, freq[gray])];
      todo := todo - {gray};
    }
  }

  /** `build_huffman_tree`: pushes a leaf per table entry, then merges the
      two lightest nodes into one internal node until at most one is left.
      An empty table gives `None`, a one-entry table a single leaf. */
  method BuildHuffmanTree(freq: map<Sample, nat>) returns (tree: Option<Node>)
    ensures tree.None? <==> freq == map[]
    ensures tree.Some? ==> IsHuffmanTreeFor(tree.value, freq)
    ensures tree.Some? ==> (tree.value.Leaf? <==> |freq| == 1)
  {
    var heap := InitialHeap(freq);
    while |heap| > 1
      invariant HeapOk(heap, freq)
      invariant HeapGrays(heap) == multiset(freq.Keys)
      decreases |heap|
    {
      var left, rest, k1 := PopMin(heap);
      var right, rest2, k2 := PopMin(rest);
      var merged := Internal(left.freq + right.freq, left, right);
      MergeKeepsOk(heap, k1, rest, k2, rest2, freq);
      MergeKeepsGrays(heap, k1, rest, k2, rest2);
      heap := rest2 + [merged];
    }
    FinishHeap(heap, freq);
    tree := if |heap| == 0 then None else Some(heap[0]);
  }

  /** Once at most one node is left, the heap is empty exactly for an empty
      table, and otherwise its node is a Huffman tree for the table. */
  lemma FinishHeap(heap: seq<Node>, freq: map<Sample, nat>)
    requires |heap| <= 1
    requires HeapOk(heap, freq)
    requires HeapGrays(heap) == multiset(freq.Keys)
    ensures |heap| == 0 <==> freq == map[]
    ensures |heap| == 1 ==> IsHuffmanTreeFor(heap[0], freq) && (heap[0].Leaf? <==> |freq| == 1)
  {
    if |heap| == 0 {
      assert |freq| == |multiset(freq.Keys)| == 0;
    } else {
      var t := heap[0];
      assert heap == [t];
      assert [t][..0] == [];
      assert multiset(Grays(t)) == multiset(freq.Keys);
      assert |Grays(t)| == |freq.Keys|;
      if t.Internal? {
        GraysNonEmpty(t.left);
        GraysNonEmpty(t.right);
      }
    }
  }

  // ---- Code generation ----

  /** The code table of the subtree `t` reached by path `prefix`: each leaf
      gets the path to it, `'0'` for a left branch and `'1'` for a right one. */
  function Codes(t: Node, prefix: string): (table: map<Sample, string>)
  {
    match t
    case Leaf(g, _) => map[g := prefix]
    case Internal(_, l, r) => Codes(l, prefix + "0") + Codes(r, prefix + "1")
  }

  /** The recursive `traverse` of `generate_huffman_codes`; the dictionary it
      mutates is passed in and handed back. */
  method Traverse(node: Node, prefix: string, codes: map<Sample, string>) returns (updated: map<Sample, string>)
    ensures updated == codes + Codes(node, prefix)
    decreases node
  {
    match node
    case Leaf(g, _) =>
      updated := codes[g := prefix];
    case Internal(_, l, r) =>
      var afterLeft := Traverse(l, prefix + "0", codes);
      updated := Traverse(r, prefix + "1", afterLeft);
  }

  /** `generate_huffman_codes`: no tree gives an empty table, a single leaf
      the empty code `""` (the traversal starts with an empty prefix). */
  method GenerateHuffmanCodes(tree: Option<Node>) returns (codes: map<Sample, string>)
    ensures tree.None? ==> codes == map[]
    ensures tree.Some? ==> codes == Codes(tree.value, "")
    ensures tree.Some? && tree.value.Leaf? ==> codes == map[tree.value.gray := ""]
  {
    codes := map[];
    if tree.Some? {
      codes := Traverse(tree.value, "", codes);
    }
  }

  predicate IsPrefix(a: string, b: string)
  {
    |a| <= |b| && b[..|a|] == a
  }

  predicate PrefixFree(codes: map<Sample, string>)
  {
    forall g1, g2 :: g1 in codes && g2 in codes && g1 != g2 ==> !IsPrefix(codes[g1], codes[g2])
  }

  predicate Injective(codes: map<Sample, string>)
  {
    forall g1, g2 :: g1 in codes && g2 in codes && g1 != g2 ==> codes[g1] != codes[g2]
  }

  /** One code per leaf gray, and nothing else. */
  lemma {:induction false} CodesKeys(t: Node, prefix: string)
    ensures forall g :: g in Codes(t, prefix) <==> g in Grays(t)
  {
    match t
    case Leaf(_, _) =>
    case Internal(_, l, r) =>
      CodesKeys(l, prefix + "0");
      CodesKeys(r, prefix + "1");
  }

  /** Every code of the subtree extends the path to it, and is a bit string. */
  lemma {:induction false} CodesExtend(t: Node, prefix: string)
    ensures forall g :: g in Codes(t, prefix) ==> IsPrefix(prefix, Codes(t, prefix)[g])
    ensures forall g :: g in Codes(t, prefix) ==> t.Internal? ==> |Codes(t, prefix)[g]| > |prefix|
  {
    match t
    case Leaf(_, _) =>
    case Internal(_, l, r) =>
      CodesExtend(l, prefix + "0");
      CodesExtend(r, prefix + "1");
      forall g | g in Codes(t, prefix)
        ensures IsPrefix(prefix, Codes(t, prefix)[g]) && |Codes(t, prefix)[g]| > |prefix|
      {
        var c := Codes(t, prefix)[g];
        if g in Codes(r, prefix + "1") {
          assert c[..|prefix|] == c[..|prefix| + 1][..|prefix|];
        } else {
          assert c[..|prefix|] == c[..|prefix| + 1][..|prefix|];
        }
      }
  }

  lemma DistinctChildren(t: Node)
    requires t.Internal? && DistinctGrays(t)
    ensures DistinctGrays(t.left) && DistinctGrays(t.right)
    ensures forall g :: g in Grays(t.left) ==> g !in Grays(t.right)
  {
    var l, r := t.left, t.right;
    forall x ensures multiset(Grays(l))[x] <= 1 && multiset(Grays(r))[x] <= 1 {
      assert multiset(Grays(t))[x] == multiset(Grays(l))[x] + multiset(Grays(r))[x];
    }
    forall g | g in Grays(l) ensures g !in Grays(r) {
      assert multiset(Grays(t))[g] == multiset(Grays(l))[g] + multiset(Grays(r))[g];
    }
  }

  /** The generated codes are prefix-free: no code is a prefix of another
      gray's code. */
  lemma {:induction false} CodesPrefixFree(t: Node, prefix: string)
    requires DistinctGrays(t)
    ensures PrefixFree(Codes(t, prefix))
  {
    match t
    case Leaf(_, _) =>
    case Internal(_, l, r) =>
      var lp, rp := prefix + "0", prefix + "1";
      var lc, rc := Codes(l, lp), Codes(r, rp);
      DistinctChildren(t);
      CodesPrefixFree(l, lp);
      CodesPrefixFree(r, rp);
      CodesKeys(l, lp);
      CodesKeys(r, rp);
      CodesExtend(l, lp);
      CodesExtend(r, rp);
      var codes := Codes(t, prefix);
      forall g1, g2 | g1 in codes && g2 in codes && g1 != g2
        ensures !IsPrefix(codes[g1], codes[g2])
      {
        if g1 in lc && g2 in rc {
          SplitAt(lc[g1], rc[g2], prefix, '0', '1');
        } else if g1 in rc && g2 in lc {
          SplitAt(rc[g1], lc[g2], prefix, '1', '0');
        }
      }
  }

  /** Two strings extending `p + [a]` and `p + [b]` with `a != b` are not
      prefixes of one another. */
  lemma SplitAt(x: string, y: string, p: string, a: char, b: char)
    requires a != b
    requires IsPrefix(p + [a], x) && IsPrefix(p + [b], y)
    ensures !IsPrefix(x, y)
  {
    assert x[|p|] == a by { assert x[..|p| + 1][|p|] == (p + [a])[|p|]; }
    assert y[|p|] == b by { assert y[..|p| + 1][|p|] == (p + [b])[|p|]; }
    if |x| <= |y| {
      assert y[..|x|][|p|] == b;
    }
  }

  lemma PrefixFreeInjective(codes: map<Sample, string>)
    requires PrefixFree(codes)
    ensures Injective(codes)
  {
    forall g1, g2 | g1 in codes && g2 in codes && g1 != g2 ensures codes[g1] != codes[g2] {
      assert IsPrefix(codes[g1], codes[g1]);
    }
  }

  lemma HuffmanTreeDistinct(t: Node, freq: map<Sample, nat>)
    requires IsHuffmanTreeFor(t, freq)
    ensures DistinctGrays(t)
    ensures forall g :: g in Grays(t) <==> g in freq
  {
    forall x ensures multiset(Grays(t))[x] <= 1 {
      assert multiset(freq.Keys)[x] <= 1;
    }
    forall g ensures g in Grays(t) <==> g in freq {
      assert g in multiset(Grays(t)) <==> g in multiset(freq.Keys);
    }
  }

  /** The table generated from a Huffman tree for `freq` has one code per
      gray of `freq` and is prefix-free, hence injective. */
  lemma CodeTableFor(t: Node, freq: map<Sample, nat>)
    requires IsHuffmanTreeFor(t, freq)
    ensures Codes(t, "").Keys == freq.Keys
    ensures PrefixFree(Codes(t, ""))
    ensures Injective(Codes(t, ""))
  {
    HuffmanTreeDistinct(t, freq);
    CodesKeys(t, "");
    CodesPrefixFree(t, "");
    PrefixFreeInjective(Codes(t, ""));
  }

  // ---- Encoding and the inverted table ----

  /** `huffman_encode_rle` of utils.py: each run becomes `(code, count)`;
      a value without a code raises `KeyError`, modelled as `None`. */
  function HuffmanEncodeRle(rle: seq<Run>, codes: map<Sample, string>): (r: Option<seq<(string, nat)>>)
    ensures r.Some? <==> forall i :: 0 <= i < |rle| ==> rle[i].value in codes
    ensures r.Some? ==> |r.value| == |rle|
    ensures r.Some? ==> forall i :: 0 <= i < |rle| ==> r.value[i] == (codes[rle[i].value], rle[i].count)
  {
    if rle == [] then Some([])
    else
      var last := rle[|rle| - 1];
      match HuffmanEncodeRle(rle[..|rle| - 1], codes)
      case None => None
      case Some(front) =>
        if last.value in codes then Some(front + [(codes[last.value], last.count)]) else None
  }

  /** The second `huffman_encode_rle` of Makalah.py, which shadows the first:
      each run becomes `(code, decimal_to_binary(count))`. */
  function HuffmanEncodeRleBinary(rle: seq<Run>, codes: map<Sample, string>): (r: Option<seq<(string, string)>>)
    ensures r.Some? <==> forall i :: 0 <= i < |rle| ==> rle[i].value in codes
    ensures r.Some? ==> |r.value| == |rle|
    ensures r.Some? ==> forall i :: 0 <= i < |rle| ==>
      r.value[i] == (codes[rle[i].value], Binary.DecimalToBinary(rle[i].count))
    ensures r.Some? ==> forall i :: 0 <= i < |rle| ==> Binary.ParseInt(r.value[i].1, 2) == Some(rle[i].count)
  {
    if rle == [] then Some([])
    else
      var last := rle[|rle| - 1];
      match HuffmanEncodeRleBinary(rle[..|rle| - 1], codes)
      case None => None
      case Some(front) =>
        if last.value in codes then Some(front + [(codes[last.value], Binary.DecimalToBinary(last.count))]) else None
  }

  /** Every lookup succeeds when the table was generated from the frequencies
      of the same run list. */
  lemma EncodeSucceeds(rle: seq<Run>, freq: map<Sample, nat>, t: Node)
    requires freq.Keys == ValueSet(rle)
    requires IsHuffmanTreeFor(t, freq)
    ensures HuffmanEncodeRle(rle, Codes(t, "")).Some?
    ensures HuffmanEncodeRleBinary(rle, Codes(t, "")).Some?
  {
    CodeTableFor(t, freq);
    ValueSetMembers(rle);
  }

  /** `reverse_huffman_codes = {code: gray for gray, code in huffman_codes.items()}`:
      every code maps back to a gray that has it. */
  ghost function ReverseCodes(codes: map<Sample, string>): (rev: map<string, Sample>)
    ensures rev.Keys == codes.Values
    ensures forall c :: c in rev ==> rev[c] in codes && codes[rev[c]] == c
  {
    map c | c in codes.Values :: var g :| g in codes && codes[g] == c; g
  }

  /** With distinct codes the inversion is well defined: it undoes the table. */
  lemma ReverseInverts(codes: map<Sample, string>)
    requires Injective(codes)
    ensures forall g :: g in codes ==> codes[g] in ReverseCodes(codes) && ReverseCodes(codes)[codes[g]] == g
  {
    var rev := ReverseCodes(codes);
    forall g | g in codes ensures codes[g] in rev && rev[codes[g]] == g {
      assert codes[g] in codes.Values;
    }
  }
}
