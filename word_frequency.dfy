/** `get_word_frequency` of wordFrequency.py after the file has been read:
    the text is normalised, split into words, the words are counted and the
    (count, word) pairs are sorted by count, most frequent first. */
module WordFrequency {
  import opened Wrappers
  import opened Strings
  import opened Counting

  type Entry = (nat, string)

  /** `content.replace('\n', ' ')` */
  function NewlinesToSpaces(s: string): (r: string)
    ensures |r| == |s|
    ensures forall i :: 0 <= i < |s| ==> r[i] == if s[i] == '\n' then ' ' else s[i]
  {
    if s == [] then [] else [if s[0] == '\n' then ' ' else s[0]] + NewlinesToSpaces(s[1..])
  }

  /** `s.translate(str.maketrans('', '', string.punctuation))` */
  function DropPunctuation(s: string): (r: string)
    ensures forall c :: c in r <==> c in s && c !in Punctuation
    ensures |r| <= |s|
  {
    if s == [] then []
    else (if s[0] in Punctuation then [] else [s[0]]) + DropPunctuation(s[1..])
  }

  /** Deleting punctuation works character by character: it distributes
      over concatenation ... */
  lemma {:induction false} DropPunctuationAppend(a: string, b: string)
    ensures DropPunctuation(a + b) == DropPunctuation(a) + DropPunctuation(b)
    decreases |a|
  {
    if a == [] {
      assert a + b == b;
    } else {
      assert (a + b)[0] == a[0] && (a + b)[1..] == a[1..] + b;
      DropPunctuationAppend(a[1..], b);
    }
  }

  /** ... and keeps a single character exactly when it is no punctuation. */
  lemma DropPunctuationOne(c: char)
    ensures DropPunctuation([c]) == if c in Punctuation then [] else [c]
  {
    assert [c][1..] == [];
  }

  /** A text without punctuation passes through unchanged. */
  lemma {:induction false} DropNoPunctuation(s: string)
    requires forall i :: 0 <= i < |s| ==> s[i] !in Punctuation
    ensures DropPunctuation(s) == s
  {
    if s != [] {
      DropNoPunctuation(s[1..]);
    }
  }

  lemma LettersArePunctuationFree()
    ensures forall c :: IsLower(c) ==> c !in Punctuation
  {
    forall c | IsLower(c) ensures c !in Punctuation {
      assert forall k :: 0 <= k < |Punctuation| ==> !IsLower(Punctuation[k]);
    }
  }

  /** Without punctuation in the text, normalising only turns newlines into
      spaces and upper case into lower case, character by character. */
  lemma NormaliseClean(content: string)
    requires forall i :: 0 <= i < |content| ==> content[i] !in Punctuation
    ensures |Normalise(content)| == |content|
    ensures forall i :: 0 <= i < |content| ==>
      Normalise(content)[i] == if content[i] == '\n' then ' ' else ToLower(content[i])
  {
    var t := NewlinesToSpaces(content);
    assert forall i :: 0 <= i < |t| ==> t[i] !in Punctuation by {
      assert ' ' !in Punctuation;
    }
    DropNoPunctuation(t);
  }

  /** The text that is split: newlines made spaces, punctuation deleted,
      upper case letters made lower case. */
  function Normalise(content: string): (r: string)
    ensures forall i :: 0 <= i < |r| ==> r[i] != '\n' && r[i] !in Punctuation && !IsUpper(r[i])
    ensures |r| <= |content|
  {
    var t := DropPunctuation(NewlinesToSpaces(content));
    var r := Lower(t);
    LettersArePunctuationFree();
    forall i | 0 <= i < |r| ensures r[i] != '\n' && r[i] !in Punctuation {
      assert t[i] in t;
    }
    r
  }

  /** Normalising works character by character: it distributes over
      concatenation ... */
  lemma NormaliseAppend(a: string, b: string)
    ensures Normalise(a + b) == Normalise(a) + Normalise(b)
  {
    var na, nb := NewlinesToSpaces(a), NewlinesToSpaces(b);
    assert NewlinesToSpaces(a + b) == na + nb;
    DropPunctuationAppend(na, nb);
    var da, db := DropPunctuation(na), DropPunctuation(nb);
    LowerAppend(da, db);
  }

  lemma LowerAppend(a: string, b: string)
    ensures Lower(a + b) == Lower(a) + Lower(b)
  {
    var l, r := Lower(a + b), Lower(a) + Lower(b);
    assert |l| == |r|;
    forall i | 0 <= i < |l| ensures l[i] == r[i] {
      if i < |a| {
        assert (a + b)[i] == a[i];
      } else {
        assert (a + b)[i] == b[i - |a|];
      }
    }
  }

  /** ... deletes a punctuation character, turns a newline into a space and
      lowers any other character. */
  lemma NormaliseOne(c: char)
    ensures Normalise([c]) == if c in Punctuation then [] else if c == '\n' then " " else [ToLower(c)]
  {
    var d := if c == '\n' then ' ' else c;
    assert NewlinesToSpaces([c]) == [d];
    DropPunctuationOne(d);
    if c == '\n' {
      BlanksAreNoPunctuation();
      assert Lower(" ") == " ";
    } else {
      assert Lower([c]) == [ToLower(c)];
    }
  }

  lemma BlanksAreNoPunctuation()
    ensures ' ' !in Punctuation && '\n' !in Punctuation
  {
  }

  /** `[(count, word) for word, count in word_counter.items() if word]` */
  function Pairs(t: Tally<string>): (ps: seq<Entry>)
  {
    if t == [] then []
    else (if t[0].0 != "" then [(t[0].1, t[0].0)] else []) + Pairs(t[1..])
  }

  /** Without empty keys the comprehension only swaps each pair. */
  lemma {:induction false} PairsSwap(t: Tally<string>)
    requires forall i :: 0 <= i < |t| ==> t[i].0 != ""
    ensures |Pairs(t)| == |t|
    ensures forall i :: 0 <= i < |t| ==> Pairs(t)[i] == (t[i].1, t[i].0)
  {
    if t != [] {
      PairsSwap(t[1..]);
    }
  }

  /** Non-increasing by count. */
  predicate Descending(s: seq<Entry>)
  {
    forall i, j :: 0 <= i < j < |s| ==> s[i].0 >= s[j].0
  }

  /** The entries with count `c`, in their order in `s`. */
  function WithCount(s: seq<Entry>, c: nat): seq<Entry>
  {
    if s == [] then []
    else (if s[0].0 == c then [s[0]] else []) + WithCount(s[1..], c)
  }

  function SumFirst(s: seq<Entry>): nat
  {
    if s == [] then 0 else s[0].0 + SumFirst(s[1..])
  }

  /** Insertion after every entry whose count is at least that of `x`. */
  function Insert(r: seq<Entry>, x: Entry): (q: seq<Entry>)
  {
    if r == [] then [x]
    else if r[0].0 >= x.0 then [r[0]] + Insert(r[1..], x)
    else [x] + r
  }

  lemma {:induction false} WithCountAppend(a: seq<Entry>, b: seq<Entry>, c: nat)
    ensures WithCount(a + b, c) == WithCount(a, c) + WithCount(b, c)
    decreases |a|
  {
    if a != [] {
      assert (a + b)[1..] == a[1..] + b;
      WithCountAppend(a[1..], b, c);
    } else {
      assert a + b == b;
    }
  }

  /** A descending sequence whose first count is below `c` has no entry with
      count `c`. */
  lemma {:induction false} WithCountBelow(r: seq<Entry>, c: nat)
    requires Descending(r) && r != [] && r[0].0 < c
    ensures WithCount(r, c) == []
    decreases |r|
  {
    if |r| > 1 {
      WithCountBelow(r[1..], c);
    }
  }

  lemma {:induction false} InsertMultiset(r: seq<Entry>, x: Entry)
    ensures multiset(Insert(r, x)) == multiset(r) + multiset{x}
    decreases |r|
  {
    if r != [] {
      assert r == [r[0]] + r[1..];
      if r[0].0 >= x.0 {
        InsertMultiset(r[1..], x);
      }
    }
  }

  lemma {:induction false} InsertDescending(r: seq<Entry>, x: Entry)
    requires Descending(r)
    ensures Descending(Insert(r, x))
    decreases |r|
  {
    if r != [] && r[0].0 >= x.0 {
      InsertDescending(r[1..], x);
      InsertMultiset(r[1..], x);
      var q := Insert(r[1..], x);
      forall j | 0 <= j < |q| ensures r[0].0 >= q[j].0 {
        assert q[j] in multiset(q);
        assert q[j] == x || q[j] in r[1..];
      }
    }
  }

  lemma {:induction false} InsertSum(r: seq<Entry>, x: Entry)
    ensures SumFirst(Insert(r, x)) == SumFirst(r) + x.0
    decreases |r|
  {
    if r != [] {
      if r[0].0 >= x.0 {
        InsertSum(r[1..], x);
      } else {
        assert Insert(r, x)[1..] == r;
      }
    }
  }

  /** Insertion keeps the order among entries of equal count: `x` comes
      after all of them. */
  lemma {:induction false} InsertWithCount(r: seq<Entry>, x: Entry, c: nat)
    requires Descending(r)
    ensures WithCount(Insert(r, x), c) == WithCount(r, c) + (if x.0 == c then [x] else [])
    decreases |r|
  {
    if r != [] {
      if r[0].0 >= x.0 {
        var q := Insert(r[1..], x);
        assert Insert(r, x) == [r[0]] + q;
        assert ([r[0]] + q)[0] == r[0] && ([r[0]] + q)[1..] == q;
        InsertWithCount(r[1..], x, c);
        Reassociate(if r[0].0 == c then [r[0]] else [], WithCount(r[1..], c),
          if x.0 == c then [x] else []);
      } else {
        assert Insert(r, x)[1..] == r;
        if x.0 == c {
          WithCountBelow(r, c);
        }
      }
    }
  }

  /** `sorted(s, key=lambda x: x[0], reverse=True)`: Python's sort is
      stable, also in reverse order, so this is insertion from the front of
      `s` placing each entry after all entries of at least its count. */
  function SortDescending(s: seq<Entry>): (r: seq<Entry>)
    ensures Descending(r)
    ensures multiset(r) == multiset(s)
    ensures SumFirst(r) == SumFirst(s)
    ensures forall c :: WithCount(r, c) == WithCount(s, c)
    decreases |s|
  {
    if s == [] then []
    else
      var p := s[..|s| - 1];
      var x := s[|s| - 1];
      assert s == p + [x];
      var r := Insert(SortDescending(p), x);
      InsertMultiset(SortDescending(p), x);
      InsertDescending(SortDescending(p), x);
      InsertSum(SortDescending(p), x);
      assert SumFirst(s) == SumFirst(p) + x.0 by {
        SumFirstAppend(p, [x]);
      }
      forall c ensures WithCount(r, c) == WithCount(s, c) {
        InsertWithCount(SortDescending(p), x, c);
        WithCountAppend(p, [x], c);
      }
      r
  }

  lemma {:induction false} SumFirstAppend(a: seq<Entry>, b: seq<Entry>)
    ensures SumFirst(a + b) == SumFirst(a) + SumFirst(b)
    decreases |a|
  {
    if a != [] {
      assert (a + b)[1..] == a[1..] + b;
      SumFirstAppend(a[1..], b);
    } else {
      assert a + b == b;
    }
  }

  /** `get_word_frequency` on the text read from the file. The result is
      ordered by count, most frequent first, and words of equal count keep
      the order of their first occurrence in the text. */
  function GetWordFrequency(content: string): (r: seq<Entry>)
    ensures Descending(r)
    ensures forall c :: WithCount(r, c) == WithCount(Pairs(Count(WordList(content))), c)
  {
    SortDescending(Pairs(Count(Words(Normalise(content)))))
  }

  /** The words the frequencies are taken of. */
  function WordList(content: string): seq<string>
  {
    Words(Normalise(content))
  }

  /** An entry occurring twice in a sequence has multiplicity at least 2. */
  lemma Twice<T>(s: seq<T>, i: nat, j: nat)
    requires i < j < |s| && s[i] == s[j]
    ensures multiset(s)[s[i]] >= 2
  {
    assert s == s[..j] + [s[j]] + s[j + 1..];
    assert s[i] in s[..j];
  }

  lemma KeysNonEmpty(ws: seq<string>)
    requires forall i :: 0 <= i < |ws| ==> ws[i] != ""
    ensures forall k :: 0 <= k < |Count(ws)| ==> Count(ws)[k].0 != ""
  {
    CountEntries(ws);
    forall k | 0 <= k < |Count(ws)| ensures Count(ws)[k].0 != "" {
      assert Keys(Count(ws))[k] in ws;
    }
  }

  /** The counted pairs, before sorting, hold each word with its number of
      occurrences. */
  lemma PairsCounted(ws: seq<string>)
    requires forall i :: 0 <= i < |ws| ==> ws[i] != ""
    ensures var ps := Pairs(Count(ws));
      forall k :: 0 <= k < |ps| ==> ps[k].1 in ws && ps[k].0 == multiset(ws)[ps[k].1]
  {
    CountEntries(ws);
    KeysNonEmpty(ws);
    PairsSwap(Count(ws));
  }

  /** Every word has a pair. */
  lemma PairsCover(ws: seq<string>)
    requires forall i :: 0 <= i < |ws| ==> ws[i] != ""
    ensures forall w :: w in ws ==>
      exists k :: 0 <= k < |Pairs(Count(ws))| && Pairs(Count(ws))[k].1 == w
  {
    var t := Count(ws);
    FirstOccurrencesElements(ws);
    KeysNonEmpty(ws);
    PairsSwap(t);
    forall w | w in ws ensures exists k :: 0 <= k < |Pairs(t)| && Pairs(t)[k].1 == w {
      assert w in Keys(t);
      var k :| 0 <= k < |Keys(t)| && Keys(t)[k] == w;
      assert Pairs(t)[k] == (t[k].1, t[k].0);
      assert Pairs(t)[k].1 == w;
    }
    assert t == Count(ws);
    assert forall w :: w in ws ==> exists k :: 0 <= k < |Pairs(Count(ws))| && Pairs(Count(ws))[k].1 == w;
  }

  /** No word has two pairs, and the pairs add up to the number of words. */
  lemma PairsOnce(ws: seq<string>)
    requires forall i :: 0 <= i < |ws| ==> ws[i] != ""
    ensures Distinct(Pairs(Count(ws)))
    ensures SumFirst(Pairs(Count(ws))) == |ws|
  {
    var t := Count(ws);
    KeysNonEmpty(ws);
    PairsSwap(t);
    PairsSum(t);
    forall a, b | 0 <= a < b < |Pairs(t)| ensures Pairs(t)[a] != Pairs(t)[b] {
      assert Keys(t)[a] != Keys(t)[b];
    }
  }

  /** A rearrangement keeps what holds of every element. */
  lemma Rearranged(ps: seq<Entry>, r: seq<Entry>, ws: seq<string>)
    requires multiset(r) == multiset(ps)
    requires forall k :: 0 <= k < |ps| ==> ps[k].1 in ws && ps[k].0 == multiset(ws)[ps[k].1]
    requires forall w :: w in ws ==> exists k :: 0 <= k < |ps| && ps[k].1 == w
    requires Distinct(ps)
    ensures forall i :: 0 <= i < |r| ==> r[i].1 in ws && r[i].0 == multiset(ws)[r[i].1]
    ensures forall w :: w in ws ==> exists i :: 0 <= i < |r| && r[i].1 == w
    ensures forall i, j :: 0 <= i < j < |r| ==> r[i].1 != r[j].1
  {
    forall i | 0 <= i < |r| ensures r[i].1 in ws && r[i].0 == multiset(ws)[r[i].1] {
      assert r[i] in multiset(ps);
    }
    forall w | w in ws ensures exists i :: 0 <= i < |r| && r[i].1 == w {
      var k :| 0 <= k < |ps| && ps[k].1 == w;
      assert ps[k] in multiset(r);
    }
    forall i, j | 0 <= i < j < |r| ensures r[i].1 != r[j].1 {
      if r[i].1 == r[j].1 {
        assert r[i] == r[j];
        Twice(r, i, j);
        AtMostOnce(ps, r[i]);
      }
    }
  }

  /** Each distinct word gets exactly one entry, holding its number of
      occurrences; no other entry appears; the counts add up to the number of
      words. */
  lemma Frequencies(content: string)
    ensures var r, ws := GetWordFrequency(content), WordList(content);
      && (forall i :: 0 <= i < |r| ==> r[i].1 in ws && r[i].0 == multiset(ws)[r[i].1])
      && (forall w :: w in ws ==> exists i :: 0 <= i < |r| && r[i].1 == w)
      && (forall i, j :: 0 <= i < j < |r| ==> r[i].1 != r[j].1)
      && SumFirst(r) == |ws|
  {
    var ws := WordList(content);
    PairsCounted(ws);
    PairsCover(ws);
    PairsOnce(ws);
    Rearranged(Pairs(Count(ws)), GetWordFrequency(content), ws);
  }

  lemma {:induction false} PairsSum(t: Tally<string>)
    requires forall i :: 0 <= i < |t| ==> t[i].0 != ""
    ensures SumFirst(Pairs(t)) == SumCounts(t)
    decreases |t|
  {
    if t != [] {
      PairsSum(t[1..]);
    }
  }

  /** In a sequence without repetition every element occurs at most once. */
  lemma {:induction false} AtMostOnce<T>(s: seq<T>, x: T)
    requires Distinct(s)
    ensures multiset(s)[x] <= 1
    decreases |s|
  {
    if s != [] {
      assert s == [s[0]] + s[1..];
      AtMostOnce(s[1..], x);
      if x == s[0] {
        assert x !in s[1..] by {
          forall k | 0 <= k < |s[1..]| ensures s[1..][k] != x {
            assert s[k + 1] != s[0];
          }
        }
      }
    }
  }
}
