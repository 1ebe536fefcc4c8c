/** The run-length half of the text codec (dataCompression.py): each maximal
    run of k copies of a character is written as `str(k)` followed by the
    character, and the decoder reads one digit as a repeat count for the
    character after it. */
module RunLength {
  import opened Wrappers
  import opened Strings

  // ---------------------------------------------------------------------
  // Decimal numerals

  /** `str(k)` */
  function Decimal(k: nat): (s: string)
    ensures |s| >= 1
    ensures forall i :: 0 <= i < |s| ==> IsDigit(s[i])
    ensures k < 10 ==> s == [DigitChar(k)]
    ensures k >= 10 ==> |s| >= 2
  {
    if k < 10 then [DigitChar(k)] else Decimal(k / 10) + [DigitChar(k % 10)]
  }

  /** The number a string of decimal digits denotes: `int(ds)`. */
  function Value(ds: string): nat
    requires forall i :: 0 <= i < |ds| ==> IsDigit(ds[i])
  {
    if ds == [] then 0 else 10 * Value(ds[..|ds| - 1]) + DigitValue(ds[|ds| - 1])
  }

  lemma {:induction false} ValueOfDecimal(k: nat)
    ensures Value(Decimal(k)) == k
    decreases k
  {
    if k >= 10 {
      var s := Decimal(k);
      assert s[..|s| - 1] == Decimal(k / 10);
      ValueOfDecimal(k / 10);
    }
  }

  // ---------------------------------------------------------------------
  // Maximal runs

  /** The length of the run of `s[0]` that starts `s`. */
  function RunLength(s: string): (k: nat)
    requires s != []
    ensures 1 <= k <= |s|
    ensures forall j :: 0 <= j < k ==> s[j] == s[0]
    ensures k < |s| ==> s[k] != s[0]
  {
    if |s| == 1 || s[1] != s[0] then 1 else 1 + RunLength(s[1..])
  }

  /** A run: a character and how many times it is repeated. */
  type Run = (char, nat)

  /** The maximal runs of `s`, from left to right. */
  function Runs(s: string): seq<Run>
    decreases |s|
  {
    if s == [] then [] else var k := RunLength(s); [(s[0], k)] + Runs(s[k..])
  }

  /** The text that a list of runs stands for. */
  function Flatten(rs: seq<Run>): string
  {
    if rs == [] then [] else Repeat(rs[0].0, rs[0].1) + Flatten(rs[1..])
  }

  /** No run is empty and no two neighbouring runs repeat the same character,
      so no run can be extended. */
  predicate Maximal(rs: seq<Run>)
  {
    && (forall i :: 0 <= i < |rs| ==> rs[i].1 >= 1)
    && (forall i :: 0 <= i < |rs| - 1 ==> rs[i].0 != rs[i + 1].0)
  }

  /** A run of `count` copies of `s[0]` that ends where `s` ends or where the
      character changes is the first maximal run of `s`. */
  lemma RunsAt(s: string, count: nat)
    requires 1 <= count <= |s|
    requires forall j :: 0 <= j < count ==> s[j] == s[0]
    requires count == |s| || s[count] != s[0]
    ensures Runs(s) == [(s[0], count)] + Runs(s[count..])
  {
    assert RunLength(s) == count;
  }

  /** The runs of `s` spell `s` ... */
  lemma {:induction false} RunsFlatten(s: string)
    ensures Flatten(Runs(s)) == s
    decreases |s|
  {
    if s != [] {
      var k := RunLength(s);
      var rest := s[k..];
      RunsFlatten(rest);
      var rs := Runs(s);
      assert rs == [(s[0], k)] + Runs(rest);
      assert rs[0] == (s[0], k) && rs[1..] == Runs(rest);
      assert Flatten(rs) == Repeat(s[0], k) + Flatten(Runs(rest));
      RepeatPrefix(s, k);
      Rejoin(s, k);
    }
  }

  /** A prefix of copies of `s[0]` is a `Repeat`. */
  lemma RepeatPrefix(s: string, k: nat)
    requires 1 <= k <= |s| && forall j :: 0 <= j < k ==> s[j] == s[0]
    ensures Repeat(s[0], k) == s[..k]
  {
  }

  lemma Rejoin(s: string, k: nat)
    requires k <= |s|
    ensures s[..k] + s[k..] == s
  {
  }

  /** ... and are maximal. */
  lemma {:induction false} RunsMaximal(s: string)
    ensures Maximal(Runs(s))
    decreases |s|
  {
    if s != [] {
      var k := RunLength(s);
      var rest := s[k..];
      RunsMaximal(rest);
      var rs := Runs(s);
      var tail := Runs(rest);
      assert rs[0] == (s[0], k) && rs[1..] == tail;
      forall i | 0 <= i < |rs| ensures rs[i].1 >= 1 {
        if i > 0 { assert rs[i] == tail[i - 1]; }
      }
      forall i | 0 <= i < |rs| - 1 ensures rs[i].0 != rs[i + 1].0 {
        if i == 0 {
          assert tail[0].0 == rest[0] == s[k];
        } else {
          assert rs[i] == tail[i - 1] && rs[i + 1] == tail[i];
        }
      }
    }
  }

  /** Conversely, a maximal list of runs that spells `s` is the list of runs
      of `s`: the decomposition into maximal runs is unique. */
  lemma {:induction false} RunsUnique(rs: seq<Run>, s: string)
    requires Maximal(rs) && Flatten(rs) == s
    ensures rs == Runs(s)
    decreases |rs|
  {
    if rs != [] {
      var c, k := rs[0].0, rs[0].1;
      var tail := Flatten(rs[1..]);
      assert s == Repeat(c, k) + tail;
      assert Maximal(rs[1..]);
      if k < |s| {
        assert rs[1..] != [];
        assert tail[0] == rs[1].0 by {
          assert tail == Repeat(rs[1].0, rs[1].1) + Flatten(rs[2..]);
        }
        assert s[k] == tail[0];
      }
      RunsAt(s, k);
      assert s[k..] == tail;
      RunsUnique(rs[1..], tail);
      assert rs == [(c, k)] + rs[1..];
    }
  }

  // ---------------------------------------------------------------------
  // Encoder

  /** `str(count) + char` for every run. */
  function Render(rs: seq<Run>): string
  {
    if rs == [] then [] else Decimal(rs[0].1) + [rs[0].0] + Render(rs[1..])
  }

  /** The pending run `text[start..i+1]`, when the character changes after
      it or the text ends, is emitted first. */
  lemma EmitRun(text: string, start: nat, i: nat)
    requires start <= i < |text|
    requires forall k :: start <= k <= i ==> text[k] == text[i]
    requires i + 1 == |text| || text[i] != text[i + 1]
    ensures Render(Runs(text[start..])) == Decimal(i + 1 - start) + [text[i]] + Render(Runs(text[i + 1..]))
  {
    var s := text[start..];
    var count := i + 1 - start;
    assert s[0] == text[i];
    RunsAt(s, count);
    assert s[count..] == text[i + 1..];
    var rs := [(text[i], count)] + Runs(text[i + 1..]);
    assert rs[0] == (text[i], count) && rs[1..] == Runs(text[i + 1..]);
  }

  /** The state of `rle_compress` before the iteration for index `i`: the
      pending run holds `count` copies of `text[i]` ending at `i`, and
      `result` encodes the runs before it. */
  ghost predicate Compressing(text: string, i: nat, count: nat, result: string)
  {
    && i <= |text|
    && 1 <= count <= i + 1
    && (i == |text| ==> count == 1)
    && (i < |text| ==> forall k :: i + 1 - count <= k <= i ==> text[k] == text[i])
    && result + Render(Runs(text[i + 1 - count..])) == Render(Runs(text))
  }

  lemma CompressingStart(text: string)
    ensures Compressing(text, 0, 1, "")
  {
    assert text[0..] == text;
    assert "" + Render(Runs(text)) == Render(Runs(text));
  }

  lemma CompressingEnd(text: string, count: nat, result: string)
    requires Compressing(text, |text|, count, result)
    ensures result == Render(Runs(text))
  {
    assert text[|text|..] == [];
    assert result + [] == result;
  }

  /** The next character repeats the pending run. */
  lemma ExtendRun(text: string, i: nat, count: nat, result: string)
    requires Compressing(text, i, count, result)
    requires i + 1 < |text| && text[i] == text[i + 1]
    ensures Compressing(text, i + 1, count + 1, result)
  {
  }

  /** The pending run ends at `i`: it is written out. */
  lemma CloseRun(text: string, i: nat, count: nat, result: string)
    requires Compressing(text, i, count, result)
    requires i < |text| && (i + 1 == |text| || text[i] != text[i + 1])
    ensures Compressing(text, i + 1, 1, result + Decimal(count) + [text[i]])
  {
    var start := i + 1 - count;
    EmitRun(text, start, i);
    Regroup(result, Decimal(count), text[i], Render(Runs(text[i + 1..])), Render(Runs(text[start..])), Render(Runs(text)));
  }

  /** One iteration of `rle_compress`: the pending run grows, or it is
      written out and a new run starts. */
  method Step(text: string, i: nat, count: nat, result: string) returns (count': nat, result': string)
    requires Compressing(text, i, count, result) && i < |text|
    ensures Compressing(text, i + 1, count', result')
  {
    if i + 1 <= |text| - 1 && text[i] == text[i + 1] {
      ExtendRun(text, i, count, result);
      count', result' := count + 1, result;
    } else {
      CloseRun(text, i, count, result);
      count', result' := 1, result + Decimal(count) + [text[i]];
    }
  }

  /** Moving a written run from the pending text into the result. */
  lemma Regroup(result: string, numeral: string, c: char, later: string, pending: string, whole: string)
    requires pending == numeral + [c] + later && result + pending == whole
    ensures result + numeral + [c] + later == whole
  {
  }

  /** `rle_compress(text)`: on reaching the last character of a run, appends
      the run's length and character, then starts counting the next run. */
  method Compress(text: string) returns (result: string)
    ensures result == Render(Runs(text))
  {
    result := "";
    var count := 1;
    CompressingStart(text);
    for i := 0 to |text|
      invariant Compressing(text, i, count, result)
    {
      count, result := Step(text, i, count, result);
    }
    CompressingEnd(text, count, result);
  }

  // ---------------------------------------------------------------------
  // Decoder

  /** What the character at the front of `text` adds: d copies of the next
      character for a digit d, nothing otherwise. Only a non-zero digit as
      the last character reads past the end. */
  function Piece(text: string): string
    requires text != []
    requires !IsDigit(text[0]) || DigitValue(text[0]) == 0 || |text| >= 2
  {
    if IsDigit(text[0]) && DigitValue(text[0]) > 0 then Repeat(text[1], DigitValue(text[0])) else []
  }

  /** `text[i+1]` read past the end: the last character is a digit 1-9. */
  predicate ReadsPastEnd(text: string)
  {
    text != [] && IsDigit(text[|text| - 1]) && DigitValue(text[|text| - 1]) > 0
  }

  /** What `rle_decompression(text)` returns or raises. */
  function Expand(text: string): (r: Result<string>)
    ensures r.Failure? <==> ReadsPastEnd(text)
    ensures r.Failure? ==> r.error == IndexError
    decreases |text|
  {
    if text == [] then Success([])
    else if |text| == 1 && IsDigit(text[0]) && DigitValue(text[0]) > 0 then Failure(IndexError)
    else Prepend(Piece(text), Expand(text[1..]))
  }

  /** A character that is not a digit adds nothing by itself: a text without
      digits decodes to the empty string. */
  lemma {:induction false} ExpandWithoutDigits(text: string)
    requires forall i :: 0 <= i < |text| ==> !IsDigit(text[i])
    ensures Expand(text) == Success([])
    decreases |text|
  {
    if text != [] {
      ExpandWithoutDigits(text[1..]);
      PrependTwice([], [], Expand(text[1..]));
    }
  }

  /** `rle_decompression(text)`: for every digit, an inner loop appends the
      next character as many times as the digit says. */
  method Decompress(text: string) returns (r: Result<string>)
    ensures r == Expand(text)
  {
    var result := "";
    var i := 0;
    assert text[0..] == text;
    PrependTwice([], [], Expand(text));
    while i < |text|
      invariant 0 <= i <= |text|
      invariant Expand(text) == Prepend(result, Expand(text[i..]))
    {
      var rest := text[i..];
      assert rest[1..] == text[i + 1..];
      if IsDigit(text[i]) {
        var count := DigitValue(text[i]);
        ghost var before := result;
        while count > 0
          invariant 0 <= count <= DigitValue(text[i])
          invariant count < DigitValue(text[i]) ==> i + 1 < |text|
          invariant i + 1 < |text| ==> result == before + Repeat(text[i + 1], DigitValue(text[i]) - count)
          invariant i + 1 >= |text| ==> result == before
        {
          if i + 1 >= |text| {
            assert rest == [text[i]];
            return Failure(IndexError);
          }
          result := result + [text[i + 1]];
          count := count - 1;
        }
        if i + 1 < |text| {
          assert result == before + Piece(rest);
        } else {
          assert DigitValue(text[i]) == 0;
          assert result == before + Piece(rest);
        }
        PrependTwice(before, Piece(rest), Expand(text[i + 1..]));
      } else {
        PrependTwice(result, [], Expand(text[i + 1..]));
        assert result + [] == result;
      }
      i := i + 1;
    }
    assert text[i..] == [];
    assert result + [] == result;
    return Success(result);
  }

  // ---------------------------------------------------------------------
  // Round trip and where it breaks

  /** Runs of at most nine copies of characters that are not digits. */
  predicate SingleDigitRuns(rs: seq<Run>)
  {
    forall i :: 0 <= i < |rs| ==> 1 <= rs[i].1 <= 9 && !IsDigit(rs[i].0)
  }

  lemma {:induction false} ExpandRender(rs: seq<Run>)
    requires SingleDigitRuns(rs)
    ensures Expand(Render(rs)) == Success(Flatten(rs))
    decreases |rs|
  {
    if rs != [] {
      var c, k := rs[0].0, rs[0].1;
      var rest := Render(rs[1..]);
      var text := Render(rs);
      assert text == [DigitChar(k)] + [c] + rest;
      var after := text[1..];
      assert after == [c] + rest && after[1..] == rest;
      assert SingleDigitRuns(rs[1..]);
      ExpandRender(rs[1..]);
      assert Expand(after) == Prepend([], Expand(rest));
      PrependTwice([], [], Expand(rest));
      assert Piece(text) == Repeat(c, k);
      assert Expand(text) == Prepend(Repeat(c, k), Expand(after));
    }
  }

  /** `rle_decompression(rle_compress(s)) == s` when `s` has no digits and
      no run is longer than nine. */
  lemma RoundTrip(s: string)
    requires forall i :: 0 <= i < |s| ==> !IsDigit(s[i])
    requires forall i :: 0 <= i < |Runs(s)| ==> Runs(s)[i].1 <= 9
    ensures Expand(Render(Runs(s))) == Success(s)
  {
    RunsMaximal(s);
    RunsFlatten(s);
    var rs := Runs(s);
    forall i | 0 <= i < |rs| ensures !IsDigit(rs[i].0) {
      RunCharacterOccurs(rs, i);
      var j :| 0 <= j < |Flatten(rs)| && Flatten(rs)[j] == rs[i].0;
    }
    ExpandRender(rs);
  }

  /** The character of every non-empty run occurs in the text it spells. */
  lemma {:induction false} RunCharacterOccurs(rs: seq<Run>, i: nat)
    requires i < |rs| && rs[i].1 >= 1
    ensures rs[i].0 in Flatten(rs)
    decreases i
  {
    var head := Repeat(rs[0].0, rs[0].1);
    if i == 0 {
      assert Flatten(rs)[0] == head[0];
    } else {
      RunCharacterOccurs(rs[1..], i - 1);
      var j :| 0 <= j < |Flatten(rs[1..])| && Flatten(rs[1..])[j] == rs[i].0;
      assert Flatten(rs)[|head| + j] == rs[i].0;
    }
  }

  /** Twelve 'a's compress to "12a", which decompresses to "2aa". */
  lemma TwelveCopies()
    ensures Render(Runs(Repeat('a', 12))) == "12a"
    ensures Expand("12a") == Success("2aa")
  {
    TwelveCompressed();
    TwelveExpanded();
  }

  lemma TwelveCompressed()
    ensures Render(Runs(Repeat('a', 12))) == "12a"
  {
    var s := Repeat('a', 12);
    RunsAt(s, 12);
    assert s[12..] == [];
    assert Runs(s) == [('a', 12)];
    assert Decimal(12) == "12";
    assert Render([('a', 12)]) == "12a" by {
      assert [('a', 12)][1..] == [];
    }
  }

  lemma TwelveExpanded()
    ensures Expand("12a") == Success("2aa")
  {
    var t := "12a";
    assert t[1..] == "2a" && t[1..][1..] == "a" && t[1..][1..][1..] == [];
    assert Expand("a") == Prepend([], Expand([]));
    assert Expand("a") == Success([]);
    assert Repeat('a', 2) == "aa" by {
      assert Repeat('a', 1) == "a";
    }
    assert Piece("2a") == "aa";
    assert Expand("2a") == Prepend("aa", Expand("a"));
    assert "aa" + [] == "aa";
    assert Piece(t) == "2";
    assert Expand(t) == Prepend("2", Expand("2a"));
    assert "2" + "aa" == "2aa";
  }

  /** A digit symbol breaks the round trip: "11" compresses to "21", whose
      last character is a count with nothing after it. */
  lemma DigitSymbol()
    ensures Render(Runs("11")) == "21"
    ensures Expand("21") == Failure(IndexError)
  {
    RunsAt("11", 2);
    assert "11"[2..] == [];
    assert Runs("11") == [('1', 2)];
    assert Render([('1', 2)]) == "21" by {
      assert [('1', 2)][1..] == [];
    }
  }

  // ---------------------------------------------------------------------
  // Corrected decoder: counts of any number of digits

  /** The number of decimal digits that start `s`. */
  function LeadingDigits(s: string): (n: nat)
    ensures n <= |s|
    ensures forall i :: 0 <= i < n ==> IsDigit(s[i])
    ensures n < |s| ==> !IsDigit(s[n])
  {
    if s == [] || !IsDigit(s[0]) then 0 else 1 + LeadingDigits(s[1..])
  }

  /** Reads every maximal digit string as one count, as `str(count)` wrote
      it, and repeats the character after it that many times. */
  function ExpandCounts(text: string): Result<string>
    decreases |text|
  {
    if text == [] then Success([])
    else
      var n := LeadingDigits(text);
      if n == 0 then ExpandCounts(text[1..])
      else if n == |text| then Failure(IndexError)
      else Prepend(Repeat(text[n], Value(text[..n])), ExpandCounts(text[n + 1..]))
  }

  lemma {:induction false} ExpandCountsRender(rs: seq<Run>)
    requires forall i :: 0 <= i < |rs| ==> !IsDigit(rs[i].0)
    ensures ExpandCounts(Render(rs)) == Success(Flatten(rs))
    decreases |rs|
  {
    if rs != [] {
      var c, k := rs[0].0, rs[0].1;
      var d := Decimal(k);
      var rest := Render(rs[1..]);
      var text := Render(rs);
      assert text == d + [c] + rest;
      assert text[|d|] == c;
      assert LeadingDigits(text) == |d|;
      assert text[..|d|] == d;
      assert text[|d| + 1..] == rest;
      ValueOfDecimal(k);
      ExpandCountsRender(rs[1..]);
    }
  }

  /** With multi-digit counts read whole, the round trip holds for every text
      without digits, whatever the length of its runs. */
  lemma CorrectedRoundTrip(s: string)
    requires forall i :: 0 <= i < |s| ==> !IsDigit(s[i])
    ensures ExpandCounts(Render(Runs(s))) == Success(s)
  {
    RunsMaximal(s);
    RunsFlatten(s);
    var rs := Runs(s);
    forall i | 0 <= i < |rs| ensures !IsDigit(rs[i].0) {
      RunCharacterOccurs(rs, i);
      var j :| 0 <= j < |Flatten(rs)| && Flatten(rs)[j] == rs[i].0;
    }
    ExpandCountsRender(rs);
  }

  /** The corrected decoder restores the twelve 'a's. */
  lemma TwelveCopiesCorrected()
    ensures ExpandCounts("12a") == Success(Repeat('a', 12))
  {
    var t := "12a";
    assert LeadingDigits(t) == 2 by {
      assert t[1..] == "2a" && t[1..][1..] == "a";
    }
    assert t[..2] == "12";
    assert Value("12") == 12 by {
      assert "12"[..1] == "1";
      assert "1"[..0] == "";
    }
    assert t[3..] == [];
    assert ExpandCounts(t) == Prepend(Repeat('a', 12), ExpandCounts([]));
    assert Repeat('a', 12) + [] == Repeat('a', 12);
  }
}
