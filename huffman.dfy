/** The Huffman half of the text codec (dataCompression.py): frequency table,
    greedy tree construction, code derivation, encoder and decoder. */
module Huffman {
  import opened Wrappers
  import opened TreeNode
  import Counting

  // ---------------------------------------------------------------------
  // Weights and leaves of a collection of nodes

  /** Sum of the counts of `nodes`. */
  function Weight(nodes: seq<Node>): int
  {
    if nodes == [] then 0 else nodes[0].count + Weight(nodes[1..])
  }

  /** The leaves of a tree, with their counts. */
  function LeafBag(n: Node): (b: multiset<Node>)
  {
    match n
    case Leaf(_, _) => multiset{n}
    case Internal(_, l, r) => LeafBag(l) + LeafBag(r)
  }

  /** The leaves of every tree in `nodes`. */
  function Forest(nodes: seq<Node>): multiset<Node>
  {
    if nodes == [] then multiset{} else LeafBag(nodes[0]) + Forest(nodes[1..])
  }

  lemma {:induction false} WeightAppend(a: seq<Node>, b: seq<Node>)
    ensures Weight(a + b) == Weight(a) + Weight(b)
    ensures Forest(a + b) == Forest(a) + Forest(b)
    decreases |a|
  {
    if a != [] {
      assert (a + b)[1..] == a[1..] + b;
      WeightAppend(a[1..], b);
    } else {
      assert a + b == b;
    }
  }

  /** Taking the node at `i` out of `heap` takes its count out of the weight
      and its leaves out of the forest. */
  lemma RemoveAt(heap: seq<Node>, i: nat)
    requires i < |heap|
    ensures Weight(heap) == heap[i].count + Weight(heap[..i] + heap[i + 1..])
    ensures Forest(heap) == LeafBag(heap[i]) + Forest(heap[..i] + heap[i + 1..])
  {
    SplitAt(heap, i);
    RemoveBetween(heap[..i], heap[i], heap[i + 1..]);
  }

  lemma SplitAt(heap: seq<Node>, i: nat)
    requires i < |heap|
    ensures heap == heap[..i] + ([heap[i]] + heap[i + 1..])
  {
  }

  lemma RemoveBetween(before: seq<Node>, x: Node, after: seq<Node>)
    ensures Weight(before + ([x] + after)) == x.count + Weight(before + after)
    ensures Forest(before + ([x] + after)) == LeafBag(x) + Forest(before + after)
  {
    var from := [x] + after;
    assert from[0] == x && from[1..] == after;
    assert Weight(from) == x.count + Weight(after);
    assert Forest(from) == LeafBag(x) + Forest(after);
    WeightAppend(before, from);
    WeightAppend(before, after);
    Regroup(Forest(before), LeafBag(x), Forest(after));
  }

  lemma Regroup(a: multiset<Node>, b: multiset<Node>, c: multiset<Node>)
    ensures a + (b + c) == b + (a + c)
  {
  }

  /** Every internal node weighs what its children weigh together, and its
      left child, popped first, is no heavier than its right child. */
  predicate Consistent(n: Node)
  {
    match n
    case Leaf(_, _) => true
    case Internal(k, l, r) =>
      k == l.count + r.count && l.count <= r.count && Consistent(l) && Consistent(r)
  }

  predicate AllConsistent(nodes: seq<Node>)
  {
    forall k :: 0 <= k < |nodes| ==> Consistent(nodes[k])
  }

  /** `heap[i]` has the least count in `heap`: what `heappop` returns. */
  predicate IsMinAt(heap: seq<Node>, i: nat)
  {
    i < |heap| && forall k :: 0 <= k < |heap| ==> heap[i].count <= heap[k].count
  }

  lemma {:induction false} MinExists(heap: seq<Node>)
    requires heap != []
    ensures exists i: nat :: IsMinAt(heap, i)
    decreases |heap|
  {
    if |heap| > 1 {
      MinExists(heap[1..]);
      var j: nat :| IsMinAt(heap[1..], j);
      if heap[0].count <= heap[j + 1].count {
        assert IsMinAt(heap, 0);
      } else {
        assert IsMinAt(heap, j + 1);
      }
    } else {
      assert IsMinAt(heap, 0);
    }
  }

  /** `heappop`: removes some node of least count. Which one wins a tie is
      left open, as neither heapq nor `TreeNode.__lt__` fixes what callers
      may rely on. */
  method PopMin(heap: seq<Node>) returns (m: Node, rest: seq<Node>)
    requires heap != []
    ensures |rest| == |heap| - 1
    ensures m in heap && forall k :: 0 <= k < |heap| ==> m.count <= heap[k].count
    ensures forall k :: 0 <= k < |rest| ==> rest[k] in heap
    ensures Weight(heap) == m.count + Weight(rest)
    ensures Forest(heap) == LeafBag(m) + Forest(rest)
    ensures multiset(heap) == multiset(rest) + multiset{m}
  {
    MinExists(heap);
    var i: nat :| IsMinAt(heap, i);
    m := heap[i];
    rest := heap[..i] + heap[i + 1..];
    RemoveAt(heap, i);
    assert heap == heap[..i] + [m] + heap[i + 1..];
    forall k | 0 <= k < |rest| ensures rest[k] in heap {
      if k < i { assert rest[k] == heap[k]; } else { assert rest[k] == heap[k + 1]; }
    }
  }

  lemma ForestOne(m: Node)
    ensures Forest([m]) == LeafBag(m)
  {
    assert [m][1..] == [];
  }

  lemma Shuffle(a: multiset<Node>, b: multiset<Node>, c: multiset<Node>)
    ensures c + (a + b) == a + (b + c)
  {
  }

  /** Replacing the two popped nodes by their merge keeps the weight of the
      heap ... */
  lemma MergeWeight(heap: seq<Node>, left: Node, rest: seq<Node>, right: Node, rest2: seq<Node>)
    requires Weight(heap) == left.count + Weight(rest)
    requires Weight(rest) == right.count + Weight(rest2)
    ensures Weight(rest2 + [Internal(left.count + right.count, left, right)]) == Weight(heap)
  {
    var merged := Internal(left.count + right.count, left, right);
    assert [merged][1..] == [];
    WeightAppend(rest2, [merged]);
  }

  /** ... and its leaves. */
  lemma MergeForest(heap: seq<Node>, left: Node, rest: seq<Node>, right: Node, rest2: seq<Node>)
    requires Forest(heap) == LeafBag(left) + Forest(rest)
    requires Forest(rest) == LeafBag(right) + Forest(rest2)
    ensures Forest(rest2 + [Internal(left.count + right.count, left, right)]) == Forest(heap)
  {
    var merged := Internal(left.count + right.count, left, right);
    ForestOne(merged);
    WeightAppend(rest2, [merged]);
    Shuffle(LeafBag(left), LeafBag(right), Forest(rest2));
  }

  /** The merge of a least node and a least remaining node is consistent. */
  lemma AllConsistentMerge(heap: seq<Node>, left: Node, rest: seq<Node>, right: Node, rest2: seq<Node>)
    requires left in heap && forall k :: 0 <= k < |heap| ==> left.count <= heap[k].count
    requires right in rest && forall k :: 0 <= k < |rest| ==> rest[k] in heap
    requires forall k :: 0 <= k < |rest2| ==> rest2[k] in rest
    ensures AllConsistent(heap) ==> AllConsistent(rest2 + [Internal(left.count + right.count, left, right)])
  {
    if !AllConsistent(heap) {
      return;
    }
    assert right in heap;
    var merged := Internal(left.count + right.count, left, right);
    assert Consistent(merged);
    forall k | 0 <= k < |rest2| ensures Consistent(rest2[k]) {
      assert rest2[k] in heap;
    }
  }

  /** `next` is `heap` after one round of `huffman_tree`: a node of least
      count and then a least node of what remains are taken out, and their
      merge, the first one on the left, is pushed last. */
  predicate MergedLightest(heap: seq<Node>, next: seq<Node>)
  {
    next != [] && next[|next| - 1].Internal? &&
    var merged, others := next[|next| - 1], next[..|next| - 1];
    && merged.count == merged.left.count + merged.right.count
    && multiset(heap) == multiset(others) + multiset{merged.left, merged.right}
    && (forall k :: 0 <= k < |heap| ==> merged.left.count <= heap[k].count)
    && (forall k :: 0 <= k < |others| ==> merged.right.count <= others[k].count)
  }

  /** One round of `huffman_tree`: the two lightest nodes are popped and their
      merge is pushed. */
  method MergeLightest(heap: seq<Node>) returns (next: seq<Node>)
    requires |heap| >= 2
    ensures MergedLightest(heap, next)
    ensures |next| == |heap| - 1
    ensures Weight(next) == Weight(heap)
    ensures Forest(next) == Forest(heap)
    ensures AllConsistent(heap) ==> AllConsistent(next)
  {
    var left, rest := PopMin(heap);
    var right, rest2 := PopMin(rest);
    var merged := Internal(left.count + right.count, left, right);
    MergeWeight(heap, left, rest, right, rest2);
    MergeForest(heap, left, rest, right, rest2);
    AllConsistentMerge(heap, left, rest, right, rest2);
    MergedLightestOf(heap, left, rest, right, rest2);
    next := rest2 + [merged];
  }

  /** Popping a least node, then a least node of the rest, and pushing their
      merge is one greedy round. */
  lemma MergedLightestOf(heap: seq<Node>, left: Node, rest: seq<Node>, right: Node, rest2: seq<Node>)
    requires multiset(heap) == multiset(rest) + multiset{left}
    requires forall k :: 0 <= k < |heap| ==> left.count <= heap[k].count
    requires multiset(rest) == multiset(rest2) + multiset{right}
    requires forall k :: 0 <= k < |rest| ==> right.count <= rest[k].count
    requires forall k :: 0 <= k < |rest2| ==> rest2[k] in rest
    ensures MergedLightest(heap, rest2 + [Internal(left.count + right.count, left, right)])
  {
    var next := rest2 + [Internal(left.count + right.count, left, right)];
    assert next[..|next| - 1] == rest2;
    forall k | 0 <= k < |rest2| ensures right.count <= rest2[k].count {
      var j :| 0 <= j < |rest| && rest[j] == rest2[k];
    }
  }

  /** Every heap in the trace follows from the one before by a greedy round. */
  predicate GreedyTrace(rounds: seq<seq<Node>>)
  {
    forall i :: 0 <= i < |rounds| - 1 ==> MergedLightest(rounds[i], rounds[i + 1])
  }

  /** A greedy round from the last heap extends a greedy trace. */
  lemma GreedyTraceExtend(rounds: seq<seq<Node>>, next: seq<Node>)
    requires rounds != [] && GreedyTrace(rounds)
    requires MergedLightest(rounds[|rounds| - 1], next)
    ensures GreedyTrace(rounds + [next])
  {
    var longer := rounds + [next];
    forall i | 0 <= i < |longer| - 1 ensures MergedLightest(longer[i], longer[i + 1]) {
      if i < |rounds| - 1 {
        assert longer[i] == rounds[i] && longer[i + 1] == rounds[i + 1];
      } else {
        assert longer[i] == rounds[|rounds| - 1] && longer[i + 1] == next;
      }
    }
  }

  /** `huffman_tree(nodes)`: merges the two lightest nodes until one is left.
      An empty list raises at `heap[0]`; one node is returned without a merge. */
  method BuildTree(nodes: seq<Node>) returns (r: Result<Node>, ghost rounds: seq<seq<Node>>)
    ensures |rounds| >= 1 && rounds[0] == nodes
    ensures GreedyTrace(rounds)
    ensures r.Success? ==> rounds[|rounds| - 1] == [r.value]
    ensures nodes == [] ==> r == Failure(IndexError)
    ensures |nodes| == 1 ==> r == Success(nodes[0])
    ensures |nodes| >= 2 ==> r.Success? && r.value.Internal?
    ensures r.Success? ==> r.value.count == Weight(nodes)
    ensures r.Success? ==> LeafBag(r.value) == Forest(nodes)
    ensures r.Success? && AllConsistent(nodes) ==> Consistent(r.value)
  {
    var heap := nodes;
    rounds := [nodes];
    while |heap| > 1
      invariant |rounds| >= 1 && rounds[0] == nodes && rounds[|rounds| - 1] == heap
      invariant GreedyTrace(rounds)
      invariant nodes == [] <==> heap == []
      invariant |nodes| <= 1 ==> heap == nodes
      invariant |nodes| >= 2 ==> |heap| >= 2 || (|heap| == 1 && heap[0].Internal?)
      invariant Weight(heap) == Weight(nodes)
      invariant Forest(heap) == Forest(nodes)
      invariant AllConsistent(nodes) ==> AllConsistent(heap)
      decreases |heap|
    {
      var next := MergeLightest(heap);
      GreedyTraceExtend(rounds, next);
      heap := next;
      rounds := rounds + [heap];
    }
    if heap == [] {
      r := Failure(IndexError);
      return;
    }
    assert heap == [heap[0]];
    r := Success(heap[0]);
  }

  // ---------------------------------------------------------------------
  // Code table

  /** The letters at the leaves of a collection. */
  function LettersOf(b: multiset<Node>): set<char>
  {
    set n | n in b && n.Leaf? :: n.letter
  }

  /** The code of every leaf letter below `t`, each being `prefix` followed by
      the path from `t` to the leaf ('0' left, '1' right). A letter that occurs at
      two leaves keeps the right-hand (later) path, as a later dictionary store
      overwrites an earlier one. */
  function CodeTable(t: Node, prefix: string): map<char, string>
  {
    match t
    case Leaf(_, c) => map[c := prefix]
    case Internal(_, l, r) => CodeTable(l, prefix + "0") + CodeTable(r, prefix + "1")
  }

  /** `build_huffman_codes(node, code, mapping)`: records each leaf's path in
      the shared dictionary, walking left before right; `mapping=None` starts a
      fresh dictionary. */
  method BuildCodes(node: Option<Node>, code: string, mapping: Option<map<char, string>>)
    returns (result: map<char, string>)
    ensures var start := if mapping.None? then map[] else mapping.value;
            result == if node.None? then start else start + CodeTable(node.value, code)
    ensures mapping.None? && node.Some? ==> result == CodeTable(node.value, code)
    decreases if node.Some? then Size(node.value) else 0
  {
    result := if mapping.None? then map[] else mapping.value;
    if node.Some? {
      var n := node.value;
      var start := result;
      if Letter(n).Some? {
        result := result[Letter(n).value := code];
      }
      result := BuildCodes(Left(n), code + "0", Some(result));
      result := BuildCodes(Right(n), code + "1", Some(result));
      if n.Internal? {
        assert result == start + CodeTable(n.left, code + "0") + CodeTable(n.right, code + "1");
      }
      if mapping.None? {
        assert start + CodeTable(n, code) == CodeTable(n, code);
      }
    }
  }

  lemma {:induction false} CodeTableKeys(t: Node, prefix: string)
    ensures CodeTable(t, prefix).Keys == LettersOf(LeafBag(t))
  {
    match t
    case Leaf(_, c) =>
      assert LettersOf(multiset{t}) == {c};
    case Internal(_, l, r) =>
      CodeTableKeys(l, prefix + "0");
      CodeTableKeys(r, prefix + "1");
      LettersOfUnion(LeafBag(l), LeafBag(r));
  }

  lemma LettersOfUnion(a: multiset<Node>, b: multiset<Node>)
    ensures LettersOf(a + b) == LettersOf(a) + LettersOf(b)
  {
  }

  /** Every code below `t` extends `prefix`, strictly when `t` is internal. */
  lemma {:induction false} CodesExtendPrefix(t: Node, prefix: string)
    ensures forall c :: c in CodeTable(t, prefix) ==> prefix <= CodeTable(t, prefix)[c]
    ensures t.Internal? ==> forall c :: c in CodeTable(t, prefix) ==> |CodeTable(t, prefix)[c]| > |prefix|
  {
    match t
    case Leaf(_, _) =>
    case Internal(_, l, r) =>
      CodesExtendPrefix(l, prefix + "0");
      CodesExtendPrefix(r, prefix + "1");
      var L, R := CodeTable(l, prefix + "0"), CodeTable(r, prefix + "1");
      var m := CodeTable(t, prefix);
      assert m == L + R;
      forall c | c in m ensures prefix <= m[c] && |m[c]| > |prefix| {
        var q := if c in R then prefix + "1" else prefix + "0";
        assert m[c] == if c in R then R[c] else L[c];
        assert q <= m[c];
        assert m[c][..|prefix|] == q[..|prefix|];
      }
  }

  /** No code is a prefix of the code of another letter. */
  lemma {:induction false} CodesPrefixFree(t: Node, prefix: string)
    ensures forall c, d :: c in CodeTable(t, prefix) && d in CodeTable(t, prefix) && c != d ==>
      !(CodeTable(t, prefix)[c] <= CodeTable(t, prefix)[d])
  {
    match t
    case Leaf(_, _) =>
    case Internal(_, l, r) =>
      var p0, p1 := prefix + "0", prefix + "1";
      var L, R := CodeTable(l, p0), CodeTable(r, p1);
      CodesPrefixFree(l, p0);
      CodesPrefixFree(r, p1);
      CodesExtendPrefix(l, p0);
      CodesExtendPrefix(r, p1);
      var m := CodeTable(t, prefix);
      forall c, d | c in m && d in m && c != d ensures !(m[c] <= m[d]) {
        var qc := if c in R then p1 else p0;
        var qd := if d in R then p1 else p0;
        assert qc <= m[c] && qd <= m[d];
        assert m[c][|prefix|] == qc[|prefix|] && m[d][|prefix|] == qd[|prefix|];
        if (c in R) != (d in R) {
          assert m[c][|prefix|] != m[d][|prefix|];
        }
      }
  }

  // ---------------------------------------------------------------------
  // Encoder

  /** `huffman_compress(text, codes)`: the codes of the characters of `text`,
      in order; a character without a code raises KeyError. */
  function Compress(text: string, codes: map<char, string>): (r: Result<string>)
    ensures r.Success? <==> forall i :: 0 <= i < |text| ==> text[i] in codes
    ensures r.Failure? ==> r.error == KeyError
  {
    if text == [] then Success([])
    else if text[0] !in codes then Failure(KeyError)
    else
      match Compress(text[1..], codes)
      case Success(rest) =>
        Success(codes[text[0]] + rest)
      case Failure(e) =>
        assert text[1..] != [] && exists i :: 0 <= i < |text| - 1 && text[1..][i] !in codes;
        Failure(e)
  }

  // ---------------------------------------------------------------------
  // Decoder

  /** The decoder's state between two input characters: the cursor and the
      text so far, or the AttributeError raised by reading `None.letter`. */
  datatype Cursor = At(node: Node, out: string) | Crashed

  /** One iteration of the loop of `huffman_decompress`. */
  function Step(root: Node, st: Cursor, bit: char): Cursor
  {
    match st
    case Crashed => Crashed
    case At(cur, out) =>
      var next := if bit == '0' then Left(cur) else if bit == '1' then Right(cur) else Some(cur);
      match next
      case None => Crashed
      case Some(n) =>
        match Letter(n)
        case Some(c) => At(root, out + [c])
        case None => At(n, out)
  }

  /** The loop run over all of `bits` from state `st`. */
  function Feed(root: Node, st: Cursor, bits: string): Cursor
    decreases |bits|
  {
    if bits == [] then st else Feed(root, Step(root, st, bits[0]), bits[1..])
  }

  /** What `huffman_decompress(bits, root)` returns or raises. */
  function Decode(bits: string, root: Node): Result<string>
  {
    match Feed(root, At(root, []), bits)
    case Crashed => Failure(AttributeError)
    case At(_, out) => Success(out)
  }

  lemma {:induction false} FeedCrashed(root: Node, bits: string)
    ensures Feed(root, Crashed, bits) == Crashed
    decreases |bits|
  {
    if bits != [] {
      FeedCrashed(root, bits[1..]);
    }
  }

  lemma {:induction false} FeedAppend(root: Node, st: Cursor, a: string, b: string)
    ensures Feed(root, st, a + b) == Feed(root, Feed(root, st, a), b)
    decreases |a|
  {
    if a != [] {
      assert (a + b)[0] == a[0];
      assert (a + b)[1..] == a[1..] + b;
      FeedAppend(root, Step(root, st, a[0]), a[1..], b);
    } else {
      assert a + b == b;
    }
  }

  /** `huffman_decompress(bits, root)`, walking a cursor down the tree and
      back to the root after each leaf. */
  method Decompress(bits: string, root: Node) returns (r: Result<string>)
    ensures r == Decode(bits, root)
  {
    var result := "";
    var current := root;
    var i := 0;
    while i < |bits|
      invariant i <= |bits|
      invariant Feed(root, At(current, result), bits[i..]) == Feed(root, At(root, []), bits)
    {
      var bit := bits[i];
      assert bits[i..][1..] == bits[i + 1..];
      var next: Option<Node>;
      if bit == '0' {
        next := Left(current);
      } else if bit == '1' {
        next := Right(current);
      } else {
        next := Some(current);
      }
      if next.None? {
        FeedCrashed(root, bits[i + 1..]);
        return Failure(AttributeError);
      }
      current := next.value;
      if Letter(current).Some? {
        result := result + [Letter(current).value];
        current := root;
      }
      i := i + 1;
    }
    assert bits[i..] == [];
    return Success(result);
  }

  /** From an internal node, the rest of a letter's code leads to its leaf:
      the letter is emitted and the cursor is back at the root. */
  lemma {:induction false} DecodeOneCode(root: Node, t: Node, prefix: string, c: char, out: string)
    requires t.Internal? && c in CodeTable(t, prefix)
    ensures prefix <= CodeTable(t, prefix)[c]
    ensures Feed(root, At(t, out), CodeTable(t, prefix)[c][|prefix|..]) == At(root, out + [c])
  {
    CodesExtendPrefix(t, prefix);
    var code := CodeTable(t, prefix)[c];
    var s := code[|prefix|..];
    var l, r := t.left, t.right;
    var inRight := c in CodeTable(r, prefix + "1");
    var child := if inRight then r else l;
    var q := if inRight then prefix + "1" else prefix + "0";
    assert code == CodeTable(child, q)[c];
    CodesExtendPrefix(child, q);
    assert s[0] == q[|prefix|];
    assert s[1..] == code[|q|..];
    assert Step(root, At(t, out), s[0]) == (if child.Leaf? then At(root, out + [child.letter]) else At(child, out));
    if child.Leaf? {
      assert code == q;
      assert s[1..] == [];
    } else {
      DecodeOneCode(root, child, q, c, out);
    }
  }

  /** Decoding the encoding of `text` from the root emits `text` and ends at
      the root. */
  lemma {:induction false} DecodeEncoded(root: Node, text: string, out: string)
    requires root.Internal?
    requires forall i :: 0 <= i < |text| ==> text[i] in CodeTable(root, "")
    ensures Compress(text, CodeTable(root, "")).Success?
    ensures Feed(root, At(root, out), Compress(text, CodeTable(root, "")).value) == At(root, out + text)
    decreases |text|
  {
    var codes := CodeTable(root, "");
    if text == [] {
      assert out + text == out;
    } else {
      var c := text[0];
      var rest := Compress(text[1..], codes).value;
      DecodeOneCode(root, root, "", c, out);
      assert codes[c][0..] == codes[c];
      FeedAppend(root, At(root, out), codes[c], rest);
      DecodeEncoded(root, text[1..], out + [c]);
      assert out + [c] + text[1..] == out + text;
    }
  }

  /** With two or more leaves, decoding inverts encoding. */
  lemma RoundTrip(root: Node, text: string)
    requires root.Internal?
    requires forall i :: 0 <= i < |text| ==> text[i] in CodeTable(root, "")
    ensures Compress(text, CodeTable(root, "")).Success?
    ensures Decode(Compress(text, CodeTable(root, "")).value, root) == Success(text)
  {
    DecodeEncoded(root, text, []);
    var bits := Compress(text, CodeTable(root, "")).value;
    assert [] + text == text;
    assert Feed(root, At(root, []), bits) == At(root, text);
  }

  /** A proper prefix of the rest of a code moves the cursor to an internal
      node and emits nothing. */
  lemma {:induction false} PartialCode(root: Node, t: Node, prefix: string, c: char, k: nat, out: string)
    requires t.Internal? && c in CodeTable(t, prefix)
    requires |prefix| <= k < |CodeTable(t, prefix)[c]|
    ensures exists n: Node :: n.Internal? && Feed(root, At(t, out), CodeTable(t, prefix)[c][|prefix|..k]) == At(n, out)
    decreases k - |prefix|
  {
    CodesExtendPrefix(t, prefix);
    var code := CodeTable(t, prefix)[c];
    if k == |prefix| {
      assert code[|prefix|..k] == [];
    } else {
      var l, r := t.left, t.right;
      var inRight := c in CodeTable(r, prefix + "1");
      var child := if inRight then r else l;
      var q := if inRight then prefix + "1" else prefix + "0";
      assert code == CodeTable(child, q)[c];
      CodesExtendPrefix(child, q);
      var s := code[|prefix|..k];
      assert s[0] == q[|prefix|];
      assert s[1..] == code[|q|..k];
      if child.Leaf? {
        assert false;
      } else {
        assert Step(root, At(t, out), s[0]) == At(child, out);
        PartialCode(root, child, q, c, k, out);
      }
    }
  }

  /** A trailing partial code is dropped without an error. */
  lemma TrailingPartialCodeDropped(root: Node, text: string, c: char, k: nat)
    requires root.Internal?
    requires forall i :: 0 <= i < |text| ==> text[i] in CodeTable(root, "")
    requires c in CodeTable(root, "") && k < |CodeTable(root, "")[c]|
    ensures Compress(text, CodeTable(root, "")).Success?
    ensures Decode(Compress(text, CodeTable(root, "")).value + CodeTable(root, "")[c][..k], root) == Success(text)
  {
    var codes := CodeTable(root, "");
    DecodeEncoded(root, text, []);
    var bits := Compress(text, codes).value;
    FeedAppend(root, At(root, []), bits, codes[c][..k]);
    assert [] + text == text;
    PartialCode(root, root, "", c, k, text);
    assert codes[c][0..k] == codes[c][..k];
  }

  /** Characters other than '0' and '1' leave an internal cursor where it is. */
  lemma OtherCharactersIgnored(root: Node, cur: Node, out: string, ch: char)
    requires cur.Internal? && ch != '0' && ch != '1'
    ensures Step(root, At(cur, out), ch) == At(cur, out)
  {
  }

  // ---------------------------------------------------------------------
  // Setup: frequency table, leaves, tree and codes

  /** One leaf per (letter, count) entry: the list comprehension of
      `huffman_setup`. */
  function LeavesOf(t: Counting.Tally<char>): (nodes: seq<Node>)
    ensures |nodes| == |t|
    ensures forall i :: 0 <= i < |t| ==> nodes[i] == Leaf(t[i].1, t[i].0)
  {
    if t == [] then [] else [Leaf(t[0].1, t[0].0)] + LeavesOf(t[1..])
  }

  lemma {:induction false} LeavesForest(t: Counting.Tally<char>)
    ensures Forest(LeavesOf(t)) == multiset(LeavesOf(t))
    ensures Weight(LeavesOf(t)) == Counting.SumCounts(t)
    decreases |t|
  {
    if t != [] {
      LeavesForest(t[1..]);
      var n := LeavesOf(t);
      assert n == [n[0]] + n[1..];
      assert n[1..] == LeavesOf(t[1..]);
    }
  }

  /** The leaves carry exactly the keys of the table. */
  lemma LeavesLetters(t: Counting.Tally<char>)
    ensures LettersOf(multiset(LeavesOf(t))) == set x | x in Counting.Keys(t)
  {
    var n := LeavesOf(t);
    forall x | x in LettersOf(multiset(n)) ensures x in Counting.Keys(t) {
      var v: Node :| v in multiset(n) && v.Leaf? && v.letter == x;
      var i :| 0 <= i < |n| && n[i] == v;
      assert Counting.Keys(t)[i] == x;
    }
    forall x | x in Counting.Keys(t) ensures x in LettersOf(multiset(n)) {
      var i :| 0 <= i < |t| && Counting.Keys(t)[i] == x;
      assert n[i] in multiset(n);
    }
  }

  /** All leaves, with their counts, are consistent trees. */
  lemma LeavesConsistent(t: Counting.Tally<char>)
    ensures AllConsistent(LeavesOf(t))
  {
  }

  predicate TwoDistinct(text: string)
  {
    exists i, j :: 0 <= i < |text| && 0 <= j < |text| && text[i] != text[j]
  }

  lemma TwoDistinctLeaves(text: string)
    requires TwoDistinct(text)
    ensures |Counting.Count(text)| >= 2
  {
    Counting.CountEntries(text);
    var i, j :| 0 <= i < |text| && 0 <= j < |text| && text[i] != text[j];
    assert text[i] in Counting.Keys(Counting.Count(text)) && text[j] in Counting.Keys(Counting.Count(text));
  }

  lemma AllSame(text: string)
    requires text != [] && !TwoDistinct(text)
    ensures forall k :: 0 <= k < |text| ==> text[k] == text[0]
  {
  }

  lemma OneLetter(text: string)
    requires text != [] && !TwoDistinct(text)
    ensures (set c | c in text) == {text[0]}
    ensures Counting.Count(text) == [(text[0], |text|)]
  {
    AllSame(text);
    Counting.FirstOccurrencesConstant(text);
    var t := Counting.Count(text);
    assert Counting.Keys(t) == [text[0]];
    assert t[0].0 == text[0];
    assert t[1..] == [];
    assert Counting.SumCounts(t) == t[0].1;
  }

  /** The tree built from the frequency table of `text` has a code for every
      character of `text` and for nothing else. */
  lemma SetupKeys(text: string, root: Node)
    requires LeafBag(root) == multiset(LeavesOf(Counting.Count(text)))
    ensures CodeTable(root, "").Keys == set c | c in text
  {
    var frequency := Counting.Count(text);
    Counting.CountEntries(text);
    LeavesLetters(frequency);
    CodeTableKeys(root, "");
  }

  /** What `huffman_tree` returns on the leaves of the frequency table of
      `text` weighs `|text|`, has those leaves and is consistent. */
  lemma SetupTree(text: string, root: Node)
    requires root.count == Weight(LeavesOf(Counting.Count(text)))
    requires LeafBag(root) == Forest(LeavesOf(Counting.Count(text)))
    requires AllConsistent(LeavesOf(Counting.Count(text))) ==> Consistent(root)
    ensures root.count == |text|
    ensures LeafBag(root) == multiset(LeavesOf(Counting.Count(text)))
    ensures Consistent(root)
  {
    LeavesForest(Counting.Count(text));
    LeavesConsistent(Counting.Count(text));
  }

  /** The codes derived from the tree that `huffman_setup` builds: one per
      character of `text`, prefix-free, and with two or more distinct
      characters, non-empty and decodable; a text of one repeated character
      gets the empty code. */
  lemma SetupCodes(text: string, root: Node)
    requires text != []
    requires LeafBag(root) == multiset(LeavesOf(Counting.Count(text)))
    requires |Counting.Count(text)| >= 2 ==> root.Internal?
    requires |Counting.Count(text)| == 1 ==> root == LeavesOf(Counting.Count(text))[0]
    ensures CodeTable(root, "").Keys == set c | c in text
    ensures PrefixFree(CodeTable(root, ""))
    ensures TwoDistinct(text) ==>
      && root.Internal?
      && (forall c :: c in CodeTable(root, "") ==> CodeTable(root, "")[c] != [])
      && Decodes(text, CodeTable(root, ""), root)
    ensures !TwoDistinct(text) ==> CodeTable(root, "") == map[text[0] := ""]
  {
    SetupKeys(text, root);
    CodesPrefixFree(root, "");
    if TwoDistinct(text) {
      TwoDistinctLeaves(text);
      CodesExtendPrefix(root, "");
      RoundTrip(root, text);
    } else {
      OneLetter(text);
    }
  }

  /** A text of one repeated character encodes to nothing under the empty
      code of that character. */
  lemma {:induction false} EmptyCodeEncodesNothing(text: string, c: char)
    requires forall k :: 0 <= k < |text| ==> text[k] == c
    ensures Compress(text, map[c := ""]) == Success([])
    decreases |text|
  {
    if text != [] {
      assert forall k :: 0 <= k < |text| - 1 ==> text[1..][k] == text[k + 1];
      EmptyCodeEncodesNothing(text[1..], c);
      assert text[0] in map[c := ""] && map[c := ""][text[0]] == [];
      assert "" + "" == "";
    }
  }

  /** The one-symbol case of `huffman_setup` loses the text: it is encoded
      as the empty bit string, which decodes to the empty text. */
  lemma OneSymbolLost(text: string, root: Node)
    requires text != [] && !TwoDistinct(text)
    ensures Compress(text, map[text[0] := ""]) == Success([])
    ensures Decode([], root) == Success([])
    ensures !Decodes(text, map[text[0] := ""], root)
  {
    AllSame(text);
    EmptyCodeEncodesNothing(text, text[0]);
  }

  /** No code is a prefix of the code of another letter. */
  predicate PrefixFree(codes: map<char, string>)
  {
    forall c, d :: c in codes && d in codes && c != d ==> !(codes[c] <= codes[d])
  }

  /** Encoding `text` with `codes` succeeds and decoding the bits with `root`
      gives `text` back. */
  predicate Decodes(text: string, codes: map<char, string>, root: Node)
  {
    Compress(text, codes).Success? && Decode(Compress(text, codes).value, root) == Success(text)
  }

  /** `huffman_setup(text)`: counts the characters, makes one leaf per distinct
      character, builds the tree and derives the codes. */
  method Setup(text: string) returns (r: Result<(Node, map<char, string>)>)
    ensures text == [] ==> r == Failure(IndexError)
    ensures text != [] ==> r.Success?
    ensures r.Success? ==> r.value.0.count == |text|
    ensures r.Success? ==> LeafBag(r.value.0) == multiset(LeavesOf(Counting.Count(text)))
    ensures r.Success? ==> Consistent(r.value.0)
    ensures r.Success? ==> r.value.1.Keys == set c | c in text
    ensures r.Success? ==> PrefixFree(r.value.1)
    ensures r.Success? && TwoDistinct(text) ==>
      && r.value.0.Internal?
      && (forall c :: c in r.value.1 ==> r.value.1[c] != [])
      && Decodes(text, r.value.1, r.value.0)
    ensures r.Success? && !TwoDistinct(text) ==> r.value.1 == map[text[0] := ""]
    ensures r.Success? && !TwoDistinct(text) ==>
      Compress(text, r.value.1) == Success([]) && !Decodes(text, r.value.1, r.value.0)
  {
    var frequency := Counting.Count(text);
    var nodes := LeavesOf(frequency);
    var tree;
    ghost var rounds;
    tree, rounds := BuildTree(nodes);
    if tree.Failure? {
      return Failure(tree.error);
    }
    var root := tree.value;
    var codes := BuildCodes(Some(root), "", None);
    SetupTree(text, root);
    SetupCodes(text, root);
    if !TwoDistinct(text) {
      OneSymbolLost(text, root);
    }
    return Success((root, codes));
  }
}
