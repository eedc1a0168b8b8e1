/**
 * The prefix-code tree shared by both Huffman coders: frequency counting, the
 * priority-queue merge that builds the tree, and the root-to-leaf code table.
 * The two coders keep separate but identical `Node` classes that differ only in
 * the symbol type (`short` or `char`); here the symbol type is a parameter.
 */
module HuffmanTree {
  import opened Common

  /** A leaf holds one symbol; an internal node holds exactly two children. */
  datatype Tree<S> = Leaf(sym: S, freq: nat) | Node(left: Tree<S>, right: Tree<S>, freq: nat)

  function Height<S>(t: Tree<S>): nat
  {
    match t
    case Leaf(_, _) => 0
    case Node(l, r, _) => 1 + (if Height(l) < Height(r) then Height(r) else Height(l))
  }

  /** Every internal node's frequency is the sum of its children's. */
  ghost predicate WellFormed<S>(t: Tree<S>)
  {
    match t
    case Leaf(_, _) => true
    case Node(l, r, f) => f == l.freq + r.freq && WellFormed(l) && WellFormed(r)
  }

  /** The symbols at the leaves. */
  function Syms<S>(t: Tree<S>): set<S>
  {
    match t
    case Leaf(s, _) => {s}
    case Node(l, r, _) => Syms(l) + Syms(r)
  }

  /** The symbols at the leaves, one occurrence per leaf. */
  ghost function SymBag<S>(t: Tree<S>): multiset<S>
  {
    match t
    case Leaf(s, _) => multiset{s}
    case Node(l, r, _) => SymBag(l) + SymBag(r)
  }

  /** Each leaf's symbol, repeated as often as the leaf's frequency. */
  ghost function Weight<S>(t: Tree<S>): multiset<S>
  {
    match t
    case Leaf(s, f) => multiset{}[s := f]
    case Node(l, r, _) => Weight(l) + Weight(r)
  }

  lemma {:induction false} WeightIsFreq<S>(t: Tree<S>)
    requires WellFormed(t)
    ensures |Weight(t)| == t.freq
  {
    match t
    case Leaf(_, _) =>
    case Node(l, r, _) => WeightIsFreq(l); WeightIsFreq(r);
  }

  lemma {:induction false} SymsAreBag<S>(t: Tree<S>)
    ensures forall x :: x in Syms(t) <==> x in SymBag(t)
  {
    match t
    case Leaf(_, _) =>
    case Node(l, r, _) => SymsAreBag(l); SymsAreBag(r);
  }

  /**
   * The symbol of the leaf reached from `t` by following `path`, reading '1' as
   * "right" and any other character as "left"; None when the path stops at an
   * internal node or runs past a leaf.
   */
  function LeafAt<S>(t: Tree<S>, path: string): Option<S>
    decreases path
  {
    match t
    case Leaf(s, _) => if path == [] then Some(s) else None
    case Node(l, r, _) =>
      if path == [] then None else LeafAt(if path[0] == '1' then r else l, path[1..])
  }

  /** A string made only of '0' and '1'. */
  predicate IsBits(code: string)
  {
    forall k :: 0 <= k < |code| ==> code[k] == '0' || code[k] == '1'
  }

  /**
   * `buildCodeMap`: walk the tree, extending `prefix` with '0' to the left and '1'
   * to the right, and put each leaf's path into the map `m` (a later leaf with the
   * same symbol overwrites an earlier one).
   */
  function Codes<S>(t: Tree<S>, prefix: string, m: map<S, string>): (r: map<S, string>)
    ensures r.Keys == m.Keys + Syms(t)
  {
    match t
    case Leaf(s, _) => m[s := prefix]
    case Node(l, r, _) => Codes(r, prefix + "1", Codes(l, prefix + "0", m))
  }

  /** `c` is `prefix` followed by a binary path from `t` to a leaf holding `s`. */
  ghost predicate CodedAt<S>(t: Tree<S>, prefix: string, c: string, s: S)
  {
    |prefix| <= |c| && c[..|prefix|] == prefix &&
    IsBits(c[|prefix|..]) && LeafAt(t, c[|prefix|..]) == Some(s)
  }

  /** A code that reaches `s` from a child reaches it from the parent, one bit earlier. */
  lemma CodedStep<S>(t: Tree<S>, prefix: string, bit: char, c: string, s: S)
    requires t.Node? && (bit == '0' || bit == '1')
    requires CodedAt(if bit == '1' then t.right else t.left, prefix + [bit], c, s)
    ensures CodedAt(t, prefix, c, s)
  {
    var p := prefix + [bit];
    assert c[..|prefix|] == p[..|prefix|];
    assert c[|prefix|..] == [bit] + c[|p|..];
  }

  /**
   * What `buildCodeMap` leaves in the map: every leaf symbol is added with
   * `prefix` followed by a binary path that leads to a leaf holding that symbol,
   * and every other entry of `m` is left as it was.
   */
  lemma {:induction false} CodesSpec<S>(t: Tree<S>, prefix: string, m: map<S, string>)
    ensures Codes(t, prefix, m).Keys == m.Keys + Syms(t)
    ensures forall s :: s in m && s !in Syms(t) ==> Codes(t, prefix, m)[s] == m[s]
    ensures forall s :: s in Syms(t) ==> CodedAt(t, prefix, Codes(t, prefix, m)[s], s)
  {
    match t
    case Leaf(s, _) =>
      assert Codes(t, prefix, m)[s][|prefix|..] == [];
    case Node(l, r, _) =>
      var m1 := Codes(l, prefix + "0", m);
      CodesSpec(l, prefix + "0", m);
      CodesSpec(r, prefix + "1", m1);
      forall s | s in Syms(t) ensures CodedAt(t, prefix, Codes(t, prefix, m)[s], s)
      {
        if s in Syms(r) {
          CodedStep(t, prefix, '1', Codes(t, prefix, m)[s], s);
        } else {
          CodedStep(t, prefix, '0', Codes(t, prefix, m)[s], s);
        }
      }
  }

  /** A code table built from an empty map holds exactly the leaf symbols. */
  lemma CodeTable<S>(t: Tree<S>)
    ensures Codes(t, "", map[]).Keys == Syms(t)
    ensures forall s :: s in Syms(t) ==>
      IsBits(Codes(t, "", map[])[s]) && LeafAt(t, Codes(t, "", map[])[s]) == Some(s)
  {
    CodesSpec(t, "", map[]);
    forall s | s in Syms(t)
      ensures IsBits(Codes(t, "", map[])[s]) && LeafAt(t, Codes(t, "", map[])[s]) == Some(s)
    {
      assert Codes(t, "", map[])[s][0..] == Codes(t, "", map[])[s];
    }
  }

  /** Two paths that both end at a leaf cannot be proper prefixes of each other. */
  lemma {:induction false} LeafPathsPrefixFree<S>(t: Tree<S>, p: string, q: string)
    requires LeafAt(t, p).Some? && LeafAt(t, q).Some?
    requires |p| <= |q| && q[..|p|] == p
    ensures p == q
    decreases p
  {
    match t
    case Leaf(_, _) =>
    case Node(l, r, _) =>
      assert p[0] == q[0];
      LeafPathsPrefixFree(if p[0] == '1' then r else l, p[1..], q[1..]);
  }

  /**
   * When the root is internal, the code written for each leaf symbol is
   * non-empty and no symbol's code is a prefix of another symbol's code,
   * whatever entries the map held before.
   */
  lemma CodesPrefixFree<S>(t: Tree<S>, m: map<S, string>)
    requires t.Node?
    ensures forall s :: s in Syms(t) ==> |Codes(t, "", m)[s]| > 0
    ensures forall a, b :: a in Syms(t) && b in Syms(t) && a != b ==>
      var ca, cb := Codes(t, "", m)[a], Codes(t, "", m)[b];
      !(|ca| <= |cb| && cb[..|ca|] == ca)
  {
    var codes := Codes(t, "", m);
    CodesSpec(t, "", m);
    forall s | s in Syms(t) ensures LeafAt(t, codes[s]) == Some(s) {
      assert codes[s][0..] == codes[s];
    }
    forall a, b | a in Syms(t) && b in Syms(t) && a != b
      ensures !(|codes[a]| <= |codes[b]| && codes[b][..|codes[a]|] == codes[a])
    {
      if |codes[a]| <= |codes[b]| && codes[b][..|codes[a]|] == codes[a] {
        LeafPathsPrefixFree(t, codes[a], codes[b]);
      }
    }
  }

  /** `(freq.getOrDefault(val, 0) + 1)` over the input: exact occurrence counts. */
  method CountFrequencies<S(==)>(input: seq<S>) returns (freq: map<S, nat>)
    ensures forall x :: x in freq <==> x in input
    ensures forall x :: x in freq ==> freq[x] == multiset(input)[x]
  {
    freq := map[];
    for i := 0 to |input|
      invariant forall x :: x in freq <==> x in input[..i]
      invariant forall x :: x in freq ==> freq[x] == multiset(input[..i])[x]
    {
      var v := input[i];
      assert input[..i + 1] == input[..i] + [v];
      freq := freq[v := (if v in freq then freq[v] else 0) + 1];
    }
    assert input[..|input|] == input;
  }

  /** The codes of the input values, one after another in input order. */
  function Stream<S>(codes: map<S, string>, xs: seq<S>): string
    requires forall x :: x in xs ==> x in codes
  {
    if xs == [] then [] else codes[xs[0]] + Stream(codes, xs[1..])
  }

  lemma {:induction false} StreamSnoc<S>(codes: map<S, string>, xs: seq<S>, x: S)
    requires forall y :: y in xs + [x] ==> y in codes
    ensures Stream(codes, xs + [x]) == Stream(codes, xs) + codes[x]
  {
    if xs == [] {
      assert [x][1..] == [];
    } else {
      assert (xs + [x])[1..] == xs[1..] + [x];
      StreamSnoc(codes, xs[1..], x);
    }
  }

  /** The distinct values of a sequence. */
  function Distinct<S>(xs: seq<S>): set<S>
  {
    set x | x in xs
  }

  /** A table keyed by exactly the input's values is empty iff the input is. */
  lemma CountedKeys<S>(freq: map<S, nat>, input: seq<S>)
    requires forall x :: x in freq <==> x in input
    ensures freq.Keys == Distinct(input)
    ensures freq == map[] <==> input == []
  {
    if input != [] {
      assert input[0] in freq;
    }
  }

  /** The symbols of all trees in a queue, one occurrence per leaf. */
  ghost function QueueSyms<S>(pq: seq<Tree<S>>): multiset<S>
  {
    if pq == [] then multiset{} else SymBag(pq[0]) + QueueSyms(pq[1..])
  }

  /** The weights of all trees in a queue. */
  ghost function QueueWeight<S>(pq: seq<Tree<S>>): multiset<S>
  {
    if pq == [] then multiset{} else Weight(pq[0]) + QueueWeight(pq[1..])
  }

  lemma {:induction false} QueueConcat<S>(a: seq<Tree<S>>, b: seq<Tree<S>>)
    ensures QueueSyms(a + b) == QueueSyms(a) + QueueSyms(b)
    ensures QueueWeight(a + b) == QueueWeight(a) + QueueWeight(b)
  {
    if a == [] {
      assert a + b == b;
    } else {
      assert (a + b)[1..] == a[1..] + b;
      QueueConcat(a[1..], b);
    }
  }

  function Remove<T>(s: seq<T>, i: nat): (r: seq<T>)
    requires i < |s|
    ensures |r| == |s| - 1
    ensures forall k :: 0 <= k < i ==> r[k] == s[k]
    ensures forall k :: i <= k < |r| ==> r[k] == s[k + 1]
  {
    s[..i] + s[i + 1..]
  }

  /** Removing the element at `i` takes exactly that element out of the multiset. */
  lemma RemoveBag<T>(s: seq<T>, i: nat)
    requires i < |s|
    ensures multiset(Remove(s, i)) + multiset{s[i]} == multiset(s)
  {
    assert s == s[..i] + [s[i]] + s[i + 1..];
  }

  lemma QueueSingle<S>(t: Tree<S>)
    ensures QueueSyms([t]) == SymBag(t) && QueueWeight([t]) == Weight(t)
  {
    assert [t][1..] == [];
  }

  lemma QueueRemove<S>(pq: seq<Tree<S>>, i: nat)
    requires i < |pq|
    ensures QueueSyms(pq) == QueueSyms(Remove(pq, i)) + SymBag(pq[i])
    ensures QueueWeight(pq) == QueueWeight(Remove(pq, i)) + Weight(pq[i])
  {
    var a, x, b := pq[..i], pq[i], pq[i + 1..];
    assert pq[i..] == [x] + b;
    assert pq == a + ([x] + b);
    AppendAssoc(a, [x], b);
    QueueSplit(a, x, b);
  }

  lemma QueueSplit<S>(a: seq<Tree<S>>, x: Tree<S>, b: seq<Tree<S>>)
    ensures QueueSyms((a + [x]) + b) == QueueSyms(a + b) + SymBag(x)
    ensures QueueWeight((a + [x]) + b) == QueueWeight(a + b) + Weight(x)
  {
    QueueConcat(a + [x], b);
    QueueConcat(a, [x]);
    QueueConcat(a, b);
    QueueSingle(x);
  }

  /** Some index of a lowest-frequency tree. */
  ghost function ArgMin<S>(pq: seq<Tree<S>>): (i: nat)
    requires |pq| > 0
    ensures i < |pq| && forall j :: 0 <= j < |pq| ==> pq[i].freq <= pq[j].freq
  {
    if |pq| == 1 then 0
    else
      var k := ArgMin(pq[1..]);
      if pq[0].freq <= pq[k + 1].freq then 0 else k + 1
  }

  /** `t` was taken out of `pq`, leaving exactly `rest`: its symbols and weight move with it. */
  ghost predicate Polled<S>(pq: seq<Tree<S>>, t: Tree<S>, rest: seq<Tree<S>>)
  {
    && t in pq
    && (forall u :: u in rest ==> u in pq)
    && multiset(rest) + multiset{t} == multiset(pq)
    && QueueSyms(pq) == QueueSyms(rest) + SymBag(t)
    && QueueWeight(pq) == QueueWeight(rest) + Weight(t)
  }

  /** `pq.poll()`: a lowest-frequency tree and the queue without it; ties are unordered. */
  method Poll<S>(pq: seq<Tree<S>>) returns (t: Tree<S>, rest: seq<Tree<S>>)
    requires |pq| > 0
    ensures forall u :: u in pq ==> t.freq <= u.freq
    ensures |rest| == |pq| - 1
    ensures Polled(pq, t, rest)
  {
    ghost var m := ArgMin(pq);
    var i :| 0 <= i < |pq| && forall j :: 0 <= j < |pq| ==> pq[i].freq <= pq[j].freq;
    t, rest := pq[i], Remove(pq, i);
    QueueRemove(pq, i);
    RemoveBag(pq, i);
  }

  /** A tree with one leaf per key holds exactly the keys. */
  lemma BagOfKeys<S>(t: Tree<S>, keys: set<S>)
    requires SymBag(t) == multiset(keys)
    ensures Syms(t) == keys
  {
    SymsAreBag(t);
    SetOfBag(Syms(t), keys, SymBag(t));
  }

  lemma SetOfBag<S>(a: set<S>, keys: set<S>, bag: multiset<S>)
    requires bag == multiset(keys)
    requires forall x :: x in a <==> x in bag
    ensures a == keys
  {
    forall x ensures x in a <==> x in keys {
      assert x in multiset(keys) <==> x in keys;
    }
  }

  /** The weight a frequency map gives to each symbol. */
  ghost predicate WeighsAs<S>(bag: multiset<S>, freq: map<S, nat>, keys: set<S>)
  {
    (forall x :: x in keys ==> x in freq && bag[x] == freq[x]) && (forall x :: x in bag ==> x in keys)
  }

  lemma WeighsAsAdd<S>(bag: multiset<S>, freq: map<S, nat>, keys: set<S>, k: S)
    requires WeighsAs(bag, freq, keys) && k in freq && k !in keys
    ensures WeighsAs(bag + multiset{}[k := freq[k]], freq, keys + {k})
  {
  }

  /**
   * A tree the merge can produce from `freq`: well formed, one leaf per distinct
   * symbol, and each symbol weighted by its frequency.
   */
  ghost predicate IsMergeTree<S>(t: Tree<S>, freq: map<S, nat>)
  {
    WellFormed(t) && SymBag(t) == multiset(freq.Keys) && WeighsAs(Weight(t), freq, freq.Keys)
  }

  /** The queue holds one leaf for each symbol of `done`, weighted by its frequency. */
  ghost predicate LeafQueue<S>(pq: seq<Tree<S>>, freq: map<S, nat>, done: set<S>)
  {
    && (forall u :: u in pq ==> u.Leaf?)
    && QueueSyms(pq) == multiset(done)
    && WeighsAs(QueueWeight(pq), freq, done)
  }

  lemma QueueLeafStep<S>(freq: map<S, nat>, pq: seq<Tree<S>>, done: set<S>, k: S)
    requires k in freq && k !in done && LeafQueue(pq, freq, done)
    ensures LeafQueue(pq + [Leaf(k, freq[k])], freq, done + {k})
  {
    var leaf := Leaf(k, freq[k]);
    QueueConcat(pq, [leaf]);
    QueueSingle(leaf);
    assert multiset(done + {k}) == multiset(done) + multiset{k};
    WeighsAsAdd(QueueWeight(pq), freq, done, k);
  }

  /** One leaf per entry of the frequency table, in the table's iteration order. */
  method InitialQueue<S(==)>(freq: map<S, nat>) returns (pq: seq<Tree<S>>)
    ensures |pq| == |freq.Keys|
    ensures LeafQueue(pq, freq, freq.Keys)
  {
    pq := [];
    var todo := freq.Keys;
    while todo != {}
      invariant todo <= freq.Keys
      invariant |pq| + |todo| == |freq.Keys|
      invariant LeafQueue(pq, freq, freq.Keys - todo)
      decreases |todo|
    {
      var k :| k in todo;
      QueueLeafStep(freq, pq, freq.Keys - todo, k);
      assert freq.Keys - (todo - {k}) == (freq.Keys - todo) + {k};
      pq := pq + [Leaf(k, freq[k])];
      todo := todo - {k};
    }
    assert freq.Keys - todo == freq.Keys;
  }

  /** A queue of well-formed trees holding the symbols `syms` with weight `weight`. */
  ghost predicate Forest<S>(pq: seq<Tree<S>>, syms: multiset<S>, weight: multiset<S>)
  {
    (forall u :: u in pq ==> WellFormed(u)) && QueueSyms(pq) == syms && QueueWeight(pq) == weight
  }

  lemma QueueMerged<S>(rest: seq<Tree<S>>, left: Tree<S>, right: Tree<S>)
    ensures QueueSyms(rest + [Node(left, right, left.freq + right.freq)])
         == QueueSyms(rest) + (SymBag(left) + SymBag(right))
    ensures QueueWeight(rest + [Node(left, right, left.freq + right.freq)])
         == QueueWeight(rest) + (Weight(left) + Weight(right))
  {
    var merged := Node(left, right, left.freq + right.freq);
    QueueConcat(rest, [merged]);
    QueueSingle(merged);
  }

  lemma BagAlgebra<S>(a: multiset<S>, b: multiset<S>, c: multiset<S>, x: multiset<S>, y: multiset<S>)
    requires a == b + x && b == c + y
    ensures a == c + (x + y)
  {
  }

  /** Replacing two polled trees by a node over them keeps the forest's symbols and weight. */
  lemma MergeKeepsForest<S>(pq: seq<Tree<S>>, left: Tree<S>, mid: seq<Tree<S>>, right: Tree<S>,
                            rest: seq<Tree<S>>, syms: multiset<S>, weight: multiset<S>)
    requires Forest(pq, syms, weight) && Polled(pq, left, mid) && Polled(mid, right, rest)
    ensures Forest(rest + [Node(left, right, left.freq + right.freq)], syms, weight)
  {
    QueueMerged(rest, left, right);
    BagAlgebra(QueueSyms(pq), QueueSyms(mid), QueueSyms(rest), SymBag(left), SymBag(right));
    BagAlgebra(QueueWeight(pq), QueueWeight(mid), QueueWeight(rest), Weight(left), Weight(right));
  }

  /**
   * The merge loop: while more than one tree is queued, poll the two
   * lowest-frequency trees and queue a new node over them.
   */
  method MergeAll<S>(pq0: seq<Tree<S>>) returns (root: Tree<S>)
    requires |pq0| >= 1
    requires forall u :: u in pq0 ==> WellFormed(u)
    ensures Forest([root], QueueSyms(pq0), QueueWeight(pq0))
    ensures |pq0| >= 2 ==> root.Node?
    ensures |pq0| == 1 ==> root == pq0[0]
  {
    if |pq0| == 1 {
      root := pq0[0];
      assert pq0 == [root];
      return;
    }
    var pq := pq0;
    while |pq| > 1
      invariant 1 <= |pq|
      invariant Forest(pq, QueueSyms(pq0), QueueWeight(pq0))
      invariant |pq| >= 2 || pq[0].Node?
      decreases |pq|
    {
      var left, mid := Poll(pq);
      var right, rest := Poll(mid);
      MergeKeepsForest(pq, left, mid, right, rest, QueueSyms(pq0), QueueWeight(pq0));
      pq := rest + [Node(left, right, left.freq + right.freq)];
    }
    root := pq[0];
    assert pq == [root];
  }

  /**
   * Tree construction: queue one leaf per frequency entry, then merge. An empty
   * table leaves the queue empty and gives no root.
   */
  method BuildTree<S(==)>(freq: map<S, nat>) returns (root: Option<Tree<S>>)
    ensures root.None? <==> freq == map[]
    ensures root.Some? ==> IsMergeTree(root.value, freq)
    ensures root.Some? ==> (root.value.Node? <==> |freq.Keys| >= 2)
  {
    var pq := InitialQueue(freq);
    if pq == [] {
      assert freq.Keys == {};
      return None;
    }
    var t := MergeAll(pq);
    QueueSingle(t);
    root := Some(t);
  }

  /**
   * The root of a merge tree over the frequencies of `input` weighs exactly the
   * input: its frequency is the input's length, and its symbols are the input's
   * distinct values.
   */
  lemma MergeTreeOfInput<S>(t: Tree<S>, freq: map<S, nat>, input: seq<S>)
    requires IsMergeTree(t, freq)
    requires forall x :: x in freq <==> x in input
    requires forall x :: x in freq ==> freq[x] == multiset(input)[x]
    ensures Weight(t) == multiset(input)
    ensures t.freq == |input|
    ensures forall x :: x in input ==> x in Syms(t)
  {
    assert forall x :: Weight(t)[x] == multiset(input)[x];
    WeightIsFreq(t);
    SymsAreBag(t);
    assert forall x :: x in input ==> x in multiset(freq.Keys);
  }
}
