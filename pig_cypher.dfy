/** The codeword table of the pig cypher (pigCypher.py) and the facts about
    its shape that decoding relies on. */
module CypherTable {
  import opened Counting

  const CodeLength: nat := 5

  /** The fixed codeword table: 97 entries, one more than the alphabet,
      written as ten rows one after another. */
  const Codes: seq<string> := Flatten(Rows)

  /** The rows of the table, in order: nine of ten codewords, then seven. */
  const Rows: seq<seq<string>> := [Row0, Row1, Row2, Row3, Row4, Row5, Row6, Row7, Row8, Row9]

  const Row0: seq<string> :=
    ["6DD38", "/o^Jn", "RX:wA", "X(|El", "H6\"O+", "57>\n8", "(:,po", "/m~P\\", "n,&[Z", "2@L@W"]
  const Row1: seq<string> :=
    ["\\$j,m", "gRk>s", "q1MS[", "T%SMb", "hgs3r", "x}5:5", "/1b\'#", "KBzI=", "av_~H", "N;BoL"]
  const Row2: seq<string> :=
    ["#Qz3R", "&*O^o", "w|hSA", "%^b20", "z5Jf?", "1I-3?", "/{{g>", "*=J\"!", "|?oUC", ".hUhT"]
  const Row3: seq<string> :=
    ["E(+JP", "*K`\"`", "Pg2jW", "%qD?(", "U.deX", "A$g#M", "[5Ann", "baB1*", "qu>V)", "3=AsS"]
  const Row4: seq<string> :=
    ["@s(}=", "gVc8&", ":F:-F", "QVnlF", "82t}p", "]q.,H", "j$C9y", "r)2;=", "QdWow", "P(]0`"]
  const Row5: seq<string> :=
    ["qfiBu", "<${p<", "/_n^^", "C#S\\c", "tU(Jm", "hkL+V", "K@)(+", "3PQyK", "NCqOY", "Q0({&"]
  const Row6: seq<string> :=
    ["cVfmZ", "0@<;`", "xSA6.", "s-@e@", "8SE1)", "NEf!T", "{\\gYO", "YstW{", "[deom", "Txn-V"]
  const Row7: seq<string> :=
    ["c8@KT", "2E<8[", "IoTKQ", "t<=[o", ".=,j/", "@+Rv&", "#G%RF", "ZV2:^", "]AIP\"", "?\"\n^O"]
  const Row8: seq<string> :=
    ["j;[iL", "(FE(e", "~yu!l", "!VK|=", "2/XPg", "lUF*D", "9+%U1", "d.AF[", "b?94:", "k1TwR"]
  const Row9: seq<string> :=
    ["V48+4", "ddHc+", "WLUb?", "-WZ$+", "H<<Ds", "IqW![", "){LcK"]

  predicate Disjoint(a: seq<string>, b: seq<string>)
  {
    forall i, j :: 0 <= i < |a| && 0 <= j < |b| ==> a[i] != b[j]
  }

  predicate Sized(s: seq<string>)
  {
    forall i :: 0 <= i < |s| ==> |s[i]| == CodeLength
  }

  lemma DistinctAppend(a: seq<string>, b: seq<string>)
    requires Distinct(a) && Distinct(b) && Disjoint(a, b)
    ensures Distinct(a + b)
  {
    var s := a + b;
    forall i, j | 0 <= i < j < |s| ensures s[i] != s[j] {
      if j < |a| {
        assert s[i] == a[i] && s[j] == a[j];
      } else if i < |a| {
        assert s[i] == a[i] && s[j] == b[j - |a|];
      } else {
        assert s[i] == b[i - |a|] && s[j] == b[j - |a|];
      }
    }
  }

  lemma SizedAppend(a: seq<string>, b: seq<string>)
    requires Sized(a) && Sized(b)
    ensures Sized(a + b)
  {
    var s := a + b;
    forall i | 0 <= i < |s| ensures |s[i]| == CodeLength {
      if i < |a| {
        assert s[i] == a[i];
      } else {
        assert s[i] == b[i - |a|];
      }
    }
  }

  lemma DisjointAppend(a: seq<string>, b: seq<string>, c: seq<string>)
    requires Disjoint(a, c) && Disjoint(b, c)
    ensures Disjoint(a + b, c)
  {
    var s := a + b;
    forall i, j | 0 <= i < |s| && 0 <= j < |c| ensures s[i] != c[j] {
      if i < |a| {
        assert s[i] == a[i];
      } else {
        assert s[i] == b[i - |a|];
      }
    }
  }

  lemma Row0Sized()
    ensures Sized(Row0)
  {
  }

  lemma Row0Distinct()
    ensures Distinct(Row0)
  {
  }

  lemma Row1Sized()
    ensures Sized(Row1)
  {
  }

  lemma Row1Distinct()
    ensures Distinct(Row1)
  {
  }

  lemma Row2Sized()
    ensures Sized(Row2)
  {
  }

  lemma Row2Distinct()
    ensures Distinct(Row2)
  {
  }

  lemma Row3Sized()
    ensures Sized(Row3)
  {
  }

  lemma Row3Distinct()
    ensures Distinct(Row3)
  {
  }

  lemma Row4Sized()
    ensures Sized(Row4)
  {
  }

  lemma Row4Distinct()
    ensures Distinct(Row4)
  {
  }

  lemma Row5Sized()
    ensures Sized(Row5)
  {
  }

  lemma Row5Distinct()
    ensures Distinct(Row5)
  {
  }

  lemma Row6Sized()
    ensures Sized(Row6)
  {
  }

  lemma Row6Distinct()
    ensures Distinct(Row6)
  {
  }

  lemma Row7Sized()
    ensures Sized(Row7)
  {
  }

  lemma Row7Distinct()
    ensures Distinct(Row7)
  {
  }

  lemma Row8Sized()
    ensures Sized(Row8)
  {
  }

  lemma Row8Distinct()
    ensures Distinct(Row8)
  {
  }

  lemma Row9Sized()
    ensures Sized(Row9)
  {
  }

  lemma Row9Distinct()
    ensures Distinct(Row9)
  {
  }

  lemma Row1Apart()
    ensures Disjoint(Row0, Row1)
  {
  }

  lemma Row2Apart()
    ensures Disjoint(Row0, Row2) && Disjoint(Row1, Row2)
  {
  }

  lemma Row3Apart()
    ensures Disjoint(Row0, Row3) && Disjoint(Row1, Row3) && Disjoint(Row2, Row3)
  {
  }

  lemma Row4Apart()
    ensures Disjoint(Row0, Row4) && Disjoint(Row1, Row4) && Disjoint(Row2, Row4) && Disjoint(Row3, Row4)
  {
  }

  lemma Row5ApartLow()
    ensures Disjoint(Row0, Row5) && Disjoint(Row1, Row5) && Disjoint(Row2, Row5)
  {
  }

  lemma Row5ApartHigh()
    ensures Disjoint(Row3, Row5) && Disjoint(Row4, Row5)
  {
  }

  lemma Row6ApartLow()
    ensures Disjoint(Row0, Row6) && Disjoint(Row1, Row6) && Disjoint(Row2, Row6)
  {
  }

  lemma Row6ApartHigh()
    ensures Disjoint(Row3, Row6) && Disjoint(Row4, Row6) && Disjoint(Row5, Row6)
  {
  }

  lemma Row7ApartLow()
    ensures Disjoint(Row0, Row7) && Disjoint(Row1, Row7) && Disjoint(Row2, Row7) && Disjoint(Row3, Row7)
  {
  }

  lemma Row7ApartHigh()
    ensures Disjoint(Row4, Row7) && Disjoint(Row5, Row7) && Disjoint(Row6, Row7)
  {
  }

  lemma Row8ApartLow()
    ensures Disjoint(Row0, Row8) && Disjoint(Row1, Row8) && Disjoint(Row2, Row8) && Disjoint(Row3, Row8)
  {
  }

  lemma Row8ApartHigh()
    ensures Disjoint(Row4, Row8) && Disjoint(Row5, Row8) && Disjoint(Row6, Row8) && Disjoint(Row7, Row8)
  {
  }

  lemma Row9ApartLow()
    ensures Disjoint(Row0, Row9) && Disjoint(Row1, Row9) && Disjoint(Row2, Row9) && Disjoint(Row3, Row9) && Disjoint(Row4, Row9)
  {
  }

  lemma Row9ApartHigh()
    ensures Disjoint(Row5, Row9) && Disjoint(Row6, Row9) && Disjoint(Row7, Row9) && Disjoint(Row8, Row9)
  {
  }

  /** `Disjoint(Row0 + ... + Row(k-1), Rowk)` from the row-by-row facts. */
  lemma DisjointPrefix(rows: seq<seq<string>>, row: seq<string>)
    requires rows != []
    requires forall k :: 0 <= k < |rows| ==> Disjoint(rows[k], row)
    ensures Disjoint(Flatten(rows), row)
    decreases |rows|
  {
    if |rows| > 1 {
      DisjointPrefix(rows[..|rows| - 1], row);
      DisjointAppend(Flatten(rows[..|rows| - 1]), rows[|rows| - 1], row);
    }
  }

  /** `rows[0] + rows[1] + ...`, grouped from the left as `+` groups. */
  function Flatten(rows: seq<seq<string>>): seq<string>
  {
    if rows == [] then [] else Flatten(rows[..|rows| - 1]) + rows[|rows| - 1]
  }

  /** What is known of row `k`: sized, distinct, apart from every earlier row. */
  lemma RowFacts(k: nat)
    requires k < |Rows|
    ensures |Rows[k]| == if k < 9 then 10 else 7
    ensures Sized(Rows[k]) && Distinct(Rows[k])
    ensures forall j :: 0 <= j < k ==> Disjoint(Rows[j], Rows[k])
  {
    if k == 0 {
      Row0Sized(); Row0Distinct();
    } else if k == 1 {
      Row1Sized(); Row1Distinct(); Row1Apart();
    } else if k == 2 {
      Row2Sized(); Row2Distinct(); Row2Apart();
    } else if k == 3 {
      Row3Sized(); Row3Distinct(); Row3Apart();
    } else if k == 4 {
      Row4Sized(); Row4Distinct(); Row4Apart();
    } else if k == 5 {
      Row5Sized(); Row5Distinct(); Row5ApartLow(); Row5ApartHigh();
    } else if k == 6 {
      Row6Sized(); Row6Distinct(); Row6ApartLow(); Row6ApartHigh();
    } else if k == 7 {
      Row7Sized(); Row7Distinct(); Row7ApartLow(); Row7ApartHigh();
    } else if k == 8 {
      Row8Sized(); Row8Distinct(); Row8ApartLow(); Row8ApartHigh();
    } else {
      Row9Sized(); Row9Distinct(); Row9ApartLow(); Row9ApartHigh();
    }
  }

  /** Every codeword of the fixed table has `CodeLength` characters and no
      two entries are equal. */
  lemma CodesShape()
    ensures |Codes| == 97
    ensures forall i :: 0 <= i < |Codes| ==> |Codes[i]| == CodeLength
    ensures Distinct(Codes)
  {
    var prefix := Rows[0];
    RowFacts(0);
    for k := 1 to |Rows|
      invariant prefix == Flatten(Rows[..k]) && Distinct(prefix) && Sized(prefix)
      invariant |prefix| == if k < 10 then 10 * k else 97
    {
      assert Rows[..k + 1][..k] == Rows[..k];
      RowFacts(k);
      DisjointPrefix(Rows[..k], Rows[k]);
      DistinctAppend(prefix, Rows[k]);
      SizedAppend(prefix, Rows[k]);
      prefix := prefix + Rows[k];
    }
    assert Rows[..10] == Rows;
  }
}

/** The pig cypher (pigCypher.py): every character of a fixed alphabet is
    replaced by a five-character codeword from a table that can be rotated
    by a key; decoding reads the secret back in five-character chunks. */
module PigCypher {
  import opened Wrappers
  import opened CypherTable
  import Strings

  /** `string.ascii_letters`: lower case, then upper case. */
  const Letters: string := Strings.AsciiLowercase + Strings.AsciiUppercase

  /** The 96 characters the cypher knows, in this order. */
  const Alphabet: string := Letters + Strings.Digits + Strings.Punctuation + " \n"

  lemma AlphabetSize()
    ensures |Alphabet| == 96
  {
  }

  // ---------------------------------------------------------------------
  // list.index

  /** `s.index(x)`: the position of the first occurrence, or `None` where
      Python raises ValueError. */
  function IndexOf<T(==)>(s: seq<T>, x: T): (r: Option<nat>)
    ensures r.Some? <==> x in s
    ensures r.Some? ==> r.value < |s| && s[r.value] == x && x !in s[..r.value]
  {
    if s == [] then None
    else if s[0] == x then Some(0)
    else
      match IndexOf(s[1..], x)
      case None => None
      case Some(k) =>
        assert s[..k + 1] == [s[0]] + s[1..][..k];
        Some(k + 1)
  }

  /** Where no earlier entry repeats `s[k]`, its first occurrence is `k`. */
  lemma IndexOfFirst<T>(s: seq<T>, k: nat)
    requires k < |s|
    requires forall j :: 0 <= j < k ==> s[j] != s[k]
    ensures IndexOf(s, s[k]) == Some(k)
  {
  }

  // ---------------------------------------------------------------------
  // get_shifted_codes

  /** A slice bound as Python normalises it for a list of length `n`. */
  function SliceBound(key: int, n: nat): (c: nat)
    ensures c <= n
  {
    if key < 0 then (if n + key < 0 then 0 else n + key)
    else if key > n then n
    else key
  }

  /** `codes[key:] + codes[:key]`: both slices use the same normalised bound,
      so the result is always a rotation of `codes`. */
  function Rotate<T>(codes: seq<T>, key: int): (r: seq<T>)
    ensures |r| == |codes|
    ensures multiset(r) == multiset(codes)
  {
    var c := SliceBound(key, |codes|);
    assert codes == codes[..c] + codes[c..];
    codes[c..] + codes[..c]
  }

  /** `get_shifted_codes(key)` with `generate=False`. */
  function ShiftedCodes(key: int): (r: seq<string>)
    ensures |r| == |Codes|
    ensures multiset(r) == multiset(Codes)
  {
    Rotate(Codes, key)
  }

  /** For a key between `-len` and `len`, entry `i` of the rotation is entry
      `(i + key) mod len` of the table; any other key leaves it unchanged. */
  lemma RotateIndex<T>(codes: seq<T>, key: int, i: nat)
    requires i < |codes|
    ensures -|codes| <= key <= |codes| ==> Rotate(codes, key)[i] == codes[(i + key) % |codes|]
    ensures (key < -|codes| || key > |codes|) ==> Rotate(codes, key)[i] == codes[i]
  {
    var n := |codes|;
    var c := SliceBound(key, n);
    var j := if i < n - c then i + c else i + c - n;
    assert Rotate(codes, key)[i] == codes[j];
    if -n <= key <= n {
      Wrap(i + key, n);
    }
  }

  lemma Wrap(x: int, n: int)
    requires n > 0 && -n <= x < 2 * n
    ensures x % n == if x < 0 then x + n else if x < n then x else x - n
  {
    if x < 0 {
      assert x == n * (-1) + (x + n);
    } else if x >= n {
      assert x == n * 1 + (x - n);
    }
  }

  /** A rotation keeps codewords pairwise distinct and of the same length. */
  lemma RotateDistinct<T>(codes: seq<T>, key: int)
    requires forall j, k :: 0 <= j < k < |codes| ==> codes[j] != codes[k]
    ensures forall j, k :: 0 <= j < k < |codes| ==> Rotate(codes, key)[j] != Rotate(codes, key)[k]
  {
    var n := |codes|;
    var c := SliceBound(key, n);
    var r := Rotate(codes, key);
    forall j, k | 0 <= j < k < n ensures r[j] != r[k] {
      var j' := if j < n - c then j + c else j + c - n;
      var k' := if k < n - c then k + c else k + c - n;
      assert r[j] == codes[j'] && r[k] == codes[k'];
      assert j' != k';
    }
  }

  // ---------------------------------------------------------------------
  // cypher

  /** The alphabet character whose codeword would lie past the end of
      `codes`: `codes[index]` raises IndexError, which `cypher` does not
      catch. */
  predicate Unencodable(ch: char, codes: seq<string>)
  {
    var i := IndexOf(Alphabet, ch);
    i.Some? && i.value >= |codes|
  }

  /** What one character of the message adds to the secret. */
  function Encipher(ch: char, codes: seq<string>): (r: Result<string>)
    ensures r.Failure? <==> Unencodable(ch, codes)
    ensures r.Failure? ==> r.error == IndexError
    ensures ch !in Alphabet ==> r == Success([ch])
    ensures ch in Alphabet && !Unencodable(ch, codes) ==> r == Success(codes[IndexOf(Alphabet, ch).value])
  {
    match IndexOf(Alphabet, ch)
    case None => Success([ch])
    case Some(k) => if k < |codes| then Success(codes[k]) else Failure(IndexError)
  }

  /** `cypher(message, codes)`. */
  function Encrypt(message: string, codes: seq<string>): (r: Result<string>)
    ensures r.Failure? ==> r.error == IndexError
  {
    if message == [] then Success([])
    else
      var rest := Encrypt(message[1..], codes);
      match Encipher(message[0], codes)
      case Failure(e) => Failure(e)
      case Success(piece) => Prepend(piece, rest)
  }

  /** `cypher` fails exactly when some character of the message is an
      alphabet character without a codeword. */
  lemma {:induction false} EncryptFails(message: string, codes: seq<string>)
    ensures Encrypt(message, codes).Failure? <==>
      exists i :: 0 <= i < |message| && Unencodable(message[i], codes)
    decreases |message|
  {
    if message != [] {
      EncryptFront(message, codes);
      EncryptFails(message[1..], codes);
      assert forall i :: 1 <= i < |message| ==> message[i] == message[1..][i - 1];
    }
  }

  /** The secret of a non-empty message starts with the piece of its first
      character. */
  lemma EncryptFront(message: string, codes: seq<string>)
    requires message != []
    ensures Encipher(message[0], codes).Failure? ==> Encrypt(message, codes) == Failure(IndexError)
    ensures Encipher(message[0], codes).Success? ==>
      Encrypt(message, codes) == Prepend(Encipher(message[0], codes).value, Encrypt(message[1..], codes))
  {
  }

  method Cypher(message: string, codes: seq<string>) returns (r: Result<string>)
    ensures r == Encrypt(message, codes)
  {
    var secret := "";
    PrependTwice([], [], Encrypt(message, codes));
    for i := 0 to |message|
      invariant Encrypt(message, codes) == Prepend(secret, Encrypt(message[i..], codes))
    {
      var rest := message[i..];
      assert rest[0] == message[i] && rest[1..] == message[i + 1..];
      EncryptFront(rest, codes);
      var index := IndexOf(Alphabet, message[i]);
      var piece;
      if index.Some? {
        if index.value >= |codes| {
          return Failure(IndexError);
        }
        piece := codes[index.value];
      } else {
        piece := [message[i]];
      }
      PrependTwice(secret, piece, Encrypt(message[i + 1..], codes));
      secret := secret + piece;
    }
    assert message[|message|..] == [];
    assert secret + [] == secret;
    return Success(secret);
  }

  /** No character of the alphabet in the message: the secret is the message. */
  lemma {:induction false} EncryptCopiesThrough(message: string, codes: seq<string>)
    requires forall i :: 0 <= i < |message| ==> message[i] !in Alphabet
    ensures Encrypt(message, codes) == Success(message)
    decreases |message|
  {
    if message != [] {
      EncryptFront(message, codes);
      assert forall i :: 0 <= i < |message| - 1 ==> message[1..][i] == message[i + 1];
      EncryptCopiesThrough(message[1..], codes);
      assert [message[0]] + message[1..] == message;
    }
  }

  /** The secret of `a + b` is the secret of `a` followed by that of `b`. */
  lemma {:induction false} EncryptAppend(a: string, b: string, codes: seq<string>)
    ensures Encrypt(a, codes).Failure? ==> Encrypt(a + b, codes) == Encrypt(a, codes)
    ensures Encrypt(a, codes).Success? ==>
      Encrypt(a + b, codes) == Prepend(Encrypt(a, codes).value, Encrypt(b, codes))
    decreases |a|
  {
    if a == [] {
      assert a + b == b;
      PrependTwice([], [], Encrypt(b, codes));
    } else {
      var ab := a + b;
      assert ab[0] == a[0] && ab[1..] == a[1..] + b;
      EncryptFront(a, codes);
      EncryptFront(ab, codes);
      EncryptAppend(a[1..], b, codes);
      if Encipher(a[0], codes).Success? && Encrypt(a[1..], codes).Success? {
        PrependTwice(Encipher(a[0], codes).value, Encrypt(a[1..], codes).value, Encrypt(b, codes));
      }
    }
  }

  /** Codewords that let every alphabet character be encoded and decoded:
      at least one per character, each `CodeLength` long, and no codeword
      that an alphabet character uses appearing earlier in the table. */
  predicate Decodable(codes: seq<string>)
  {
    && |codes| >= |Alphabet|
    && (forall k :: 0 <= k < |Alphabet| ==> |codes[k]| == CodeLength)
    && (forall j, k :: 0 <= j < k < |Alphabet| ==> codes[j] != codes[k])
  }

  /** A message over the alphabet becomes five characters per character. */
  lemma {:induction false} EncryptLength(message: string, codes: seq<string>)
    requires forall i :: 0 <= i < |message| ==> message[i] in Alphabet
    requires |codes| >= |Alphabet|
    requires forall k :: 0 <= k < |Alphabet| ==> |codes[k]| == CodeLength
    ensures Encrypt(message, codes).Success?
    ensures |Encrypt(message, codes).value| == CodeLength * |message|
    decreases |message|
  {
    if message != [] {
      EncryptFront(message, codes);
      assert forall i :: 0 <= i < |message| - 1 ==> message[1..][i] == message[i + 1];
      EncryptLength(message[1..], codes);
    }
  }

  // ---------------------------------------------------------------------
  // de_cypher

  /** Length of the next chunk: `secret[i:i + 5]` is shorter only at the end. */
  function ChunkLength(rest: string): (n: nat)
    ensures n <= |rest|
    ensures rest != [] ==> n >= 1
  {
    if |rest| < CodeLength then |rest| else CodeLength
  }

  /** `alphabet[codes.index(chunk)]`: ValueError when the chunk is not a
      codeword, IndexError when its first occurrence lies past the alphabet. */
  function Decipher(chunk: string, codes: seq<string>): (r: Result<char>)
    ensures r.Success? <==> chunk in codes && IndexOf(codes, chunk).value < |Alphabet|
    ensures r.Failure? ==> (r.error == ValueError <==> chunk !in codes)
    ensures r.Failure? ==> (r.error == IndexError <==> chunk in codes)
    ensures r.Success? ==> r.value in Alphabet
  {
    match IndexOf(codes, chunk)
    case None => Failure(ValueError)
    case Some(k) => if k < |Alphabet| then Success(Alphabet[k]) else Failure(IndexError)
  }

  /** `de_cypher(secret, codes)`: one alphabet character per chunk, or the
      error of the first chunk that fails. */
  function Decrypt(secret: string, codes: seq<string>): (r: Result<string>)
    ensures r.Success? ==> |r.value| == (|secret| + CodeLength - 1) / CodeLength
    ensures r.Success? ==> forall i :: 0 <= i < |r.value| ==> r.value[i] in Alphabet
    ensures r.Failure? ==> r.error == ValueError || r.error == IndexError
    decreases |secret|
  {
    if secret == [] then Success([])
    else
      var n := ChunkLength(secret);
      match Decipher(secret[..n], codes)
      case Failure(e) => Failure(e)
      case Success(ch) => Prepend([ch], Decrypt(secret[n..], codes))
  }

  method DeCypher(secret: string, codes: seq<string>) returns (r: Result<string>)
    ensures r == Decrypt(secret, codes)
  {
    var message := "";
    var i := 0;
    PrependTwice([], [], Decrypt(secret, codes));
    assert secret[0..] == secret;
    while i < |secret|
      invariant 0 <= i
      invariant Decrypt(secret, codes) == Prepend(message, Decrypt(secret[if i < |secret| then i else |secret|..], codes))
    {
      var end := if i + CodeLength <= |secret| then i + CodeLength else |secret|;
      var chunk := secret[i..end];
      ghost var rest := secret[i..];
      assert chunk == rest[..ChunkLength(rest)] && secret[end..] == rest[ChunkLength(rest)..];
      var index := IndexOf(codes, chunk);
      if index.None? {
        return Failure(ValueError);
      }
      if index.value >= |Alphabet| {
        return Failure(IndexError);
      }
      PrependTwice(message, [Alphabet[index.value]], Decrypt(secret[end..], codes));
      message := message + [Alphabet[index.value]];
      i := i + CodeLength;
    }
    assert secret[|secret|..] == [];
    assert message + [] == message;
    return Success(message);
  }

  /** Decoding undoes encoding for a message over the alphabet, whatever
      codewords the table holds past the alphabet's length. */
  lemma {:induction false} RoundTrip(message: string, codes: seq<string>)
    requires forall i :: 0 <= i < |message| ==> message[i] in Alphabet
    requires Decodable(codes)
    ensures Encrypt(message, codes).Success?
    ensures Decrypt(Encrypt(message, codes).value, codes) == Success(message)
    decreases |message|
  {
    if message != [] {
      EncryptFront(message, codes);
      assert forall i :: 0 <= i < |message| - 1 ==> message[1..][i] == message[i + 1];
      RoundTrip(message[1..], codes);
      var k := IndexOf(Alphabet, message[0]).value;
      var piece := codes[k];
      var rest := Encrypt(message[1..], codes).value;
      var secret := piece + rest;
      assert Encrypt(message, codes) == Success(secret);
      assert ChunkLength(secret) == CodeLength;
      assert secret[..CodeLength] == piece && secret[CodeLength..] == rest;
      IndexOfFirst(codes, k);
      assert Decipher(piece, codes) == Success(message[0]);
      assert [message[0]] + message[1..] == message;
    }
  }

  /** Chunk number `q` (from position `CodeLength * q`) is not a codeword,
      or decodes past the alphabet. */
  predicate BadChunk(secret: string, q: nat, codes: seq<string>)
    requires CodeLength * q < |secret|
  {
    var rest := secret[CodeLength * q..];
    Decipher(rest[..ChunkLength(rest)], codes).Failure?
  }

  /** Decoding fails exactly when some chunk is bad. */
  lemma {:induction false} DecryptFails(secret: string, codes: seq<string>)
    ensures Decrypt(secret, codes).Failure? <==>
      exists q: nat :: CodeLength * q < |secret| && BadChunk(secret, q, codes)
    decreases |secret|
  {
    if secret != [] {
      var n := ChunkLength(secret);
      var tail := secret[n..];
      DecryptFails(tail, codes);
      assert secret[0..] == secret;
      if BadChunk(secret, 0, codes) {
      } else if n < CodeLength {
        forall q: nat | CodeLength * q < |secret| ensures q == 0 {
        }
      } else {
        forall q: nat | 1 <= q && CodeLength * q < |secret|
          ensures BadChunk(secret, q, codes) == BadChunk(tail, q - 1, codes)
        {
          assert secret[CodeLength * q..] == tail[CodeLength * (q - 1)..];
        }
        if Decrypt(secret, codes).Failure? {
          var q: nat :| CodeLength * q < |tail| && BadChunk(tail, q, codes);
          assert BadChunk(secret, q + 1, codes);
        }
      }
    }
  }

  /** The table has one codeword more than the alphabet: when that last
      codeword is new, a chunk equal to it is a codeword but decodes past the
      alphabet, so `alphabet[index]` raises IndexError. */
  lemma SpareCodeword(codes: seq<string>)
    requires |codes| > |Alphabet| && |codes[|Alphabet|]| == CodeLength
    requires codes[|Alphabet|] !in codes[..|Alphabet|]
    ensures Decrypt(codes[|Alphabet|], codes) == Failure(IndexError)
  {
    var w := codes[|Alphabet|];
    IndexOfFirst(codes, |Alphabet|);
    assert w[..ChunkLength(w)] == w;
  }

  /** Every rotation of the fixed table can decode what it encodes. */
  lemma ShiftedDecodable(key: int)
    ensures Decodable(ShiftedCodes(key))
  {
    CodesShape();
    var r := ShiftedCodes(key);
    RotateDistinct(Codes, key);
    forall k | 0 <= k < |r| ensures |r[k]| == CodeLength {
      assert r[k] in multiset(Codes);
    }
  }

  /** The program's own use: for every key and every message over the
      alphabet, `de_cypher(cypher(m, codes), codes) == m` with
      `codes = get_shifted_codes(key)`. */
  lemma ShiftedRoundTrip(message: string, key: int)
    requires forall i :: 0 <= i < |message| ==> message[i] in Alphabet
    ensures Encrypt(message, ShiftedCodes(key)).Success?
    ensures Decrypt(Encrypt(message, ShiftedCodes(key)).value, ShiftedCodes(key)) == Success(message)
  {
    ShiftedDecodable(key);
    RoundTrip(message, ShiftedCodes(key));
  }

  /** In every rotation, the 97th codeword is a codeword that decodes past
      the alphabet. */
  lemma ShiftedSpareCodeword(key: int)
    ensures |ShiftedCodes(key)| == |Alphabet| + 1
    ensures Decrypt(ShiftedCodes(key)[|Alphabet|], ShiftedCodes(key)) == Failure(IndexError)
  {
    CodesShape();
    AlphabetSize();
    var r := ShiftedCodes(key);
    RotateDistinct(Codes, key);
    assert r[|Alphabet|] in multiset(Codes);
    SpareCodeword(r);
  }
}
