/** The Morse translator (morseCodeTranslator.py): a fixed table from
    characters to dot-dash codes, an encoder that writes each code followed
    by a space, and a decoder that splits on single spaces and looks every
    token up by value. */
module MorseCode {
  import opened Wrappers
  import opened Strings

  /** One `key: value` item of the table. */
  type Entry = (char, string)

  /** The table in its insertion order, which `table.items()` follows. It
      loosely follows International Morse Code: here C and K share "-.-"
      and P is ",--,". */
  const Table: seq<Entry> := FirstLetters + LastLetters + DigitCodes + SignCodes

  const FirstLetters: seq<Entry> := [
      ('A', ".-"), ('B', "-..."), ('C', "-.-"), ('D', "-.."), ('E', "."),
      ('F', "..-."), ('G', "--."), ('H', "...."), ('I', ".."), ('J', ".---"),
      ('K', "-.-"), ('L', ".-.."), ('M', "--")
    ]
  const LastLetters: seq<Entry> := [
      ('N', "-."), ('O', "---"), ('P', ",--,"), ('Q', "--.-"), ('R', ".-."),
      ('S', "..."), ('T', "-"), ('U', "..-"), ('V', "...-"), ('W', ".--"),
      ('X', "-..-"), ('Y', "-.--"), ('Z', "--..")
    ]
  const DigitCodes: seq<Entry> := [
      ('0', "-----"), ('1', ".----"), ('2', "..---"), ('3', "...--"), ('4', "....-"),
      ('5', "....."), ('6', "-...."), ('7', "--..."), ('8', "---.."), ('9', "----.")
    ]
  const SignCodes: seq<Entry> := [
      ('.', ".-.-.-"), (',', "--..--"), ('?', "..--.."), ('=', "-...-"), (' ', "/")
    ]

  /** `letter in table`. */
  predicate IsKey(ch: char)
  {
    exists i :: 0 <= i < |Table| && Table[i].0 == ch
  }

  /** The position of the item with key `ch`, or `None` where `table[ch]`
      raises KeyError. */
  function Position(t: seq<Entry>, ch: char): (r: Option<nat>)
    ensures r.Some? ==> r.value < |t| && t[r.value].0 == ch
    ensures r.None? <==> forall i :: 0 <= i < |t| ==> t[i].0 != ch
  {
    if t == [] then None
    else if t[0].0 == ch then Some(0)
    else
      match Position(t[1..], ch)
      case None => None
      case Some(k) => Some(k + 1)
  }

  // ---------------------------------------------------------------------
  // text_to_morse

  /** `text_to_morse(text)`: each code followed by a space, or KeyError at
      the first character that is not a key. */
  function Encode(text: string): (r: Result<string>)
    ensures r.Failure? <==> exists i :: 0 <= i < |text| && !IsKey(text[i])
    ensures r.Failure? ==> r.error == KeyError
  {
    if text == [] then Success([])
    else
      assert forall i :: 1 <= i < |text| ==> text[i] == text[1..][i - 1];
      match Position(Table, text[0])
      case None => Failure(KeyError)
      case Some(p) => Prepend(Table[p].1 + " ", Encode(text[1..]))
  }

  method TextToMorse(text: string) returns (r: Result<string>)
    ensures r == Encode(text)
  {
    var mc := "";
    PrependTwice([], [], Encode(text));
    for i := 0 to |text|
      invariant Encode(text) == Prepend(mc, Encode(text[i..]))
    {
      var rest := text[i..];
      assert rest[0] == text[i] && rest[1..] == text[i + 1..];
      var p := Position(Table, text[i]);
      if p.None? {
        return Failure(KeyError);
      }
      var piece := Table[p.value].1 + " ";
      PrependTwice(mc, piece, Encode(text[i + 1..]));
      mc := mc + piece;
    }
    assert text[|text|..] == [];
    assert mc + [] == mc;
    return Success(mc);
  }

  // ---------------------------------------------------------------------
  // morse_to_text

  /** The keys whose code is `token`, in table order. */
  function KeysFor(token: string, t: seq<Entry>): (r: string)
    ensures |r| <= |t|
    ensures forall c :: c in r ==> exists i :: 0 <= i < |t| && t[i] == (c, token)
    ensures (forall i :: 0 <= i < |t| ==> t[i].1 != token) ==> r == []
  {
    if t == [] then []
    else
      var rest := KeysFor(token, t[1..]);
      assert forall i :: 1 <= i < |t| ==> t[i] == t[1..][i - 1];
      if t[0].1 == token then [t[0].0] + rest else rest
  }

  /** The keys of all tokens, token by token. */
  function DecodeTokens(tokens: seq<string>): string
  {
    if tokens == [] then [] else KeysFor(tokens[0], Table) + DecodeTokens(tokens[1..])
  }

  /** `morse_to_text(morse)`. */
  function Decode(morse: string): string
  {
    DecodeTokens(SplitOn(morse, ' '))
  }

  /** Inside the scan of token `token`: `text` plus the keys still to be
      found in `Table[j..]`, plus those of the later tokens, is the answer. */
  ghost predicate Scanning(morse: string, text: string, token: string, j: nat, after: string)
    requires j <= |Table|
  {
    Decode(morse) == text + KeysFor(token, Table[j..]) + after
  }

  /** One item scanned: its key joins the text when its code matches. */
  lemma ScanStep(morse: string, text: string, token: string, j: nat, after: string)
    requires j < |Table| && Scanning(morse, text, token, j, after)
    ensures Scanning(morse, text + (if Table[j].1 == token then [Table[j].0] else []), token, j + 1, after)
  {
    assert Table[j..][1..] == Table[j + 1..];
  }

  /** One token decoded: its keys come before those of the later tokens. */
  lemma TokenStep(morse: string, text: string, tokens: seq<string>, i: nat)
    requires i < |tokens| && Decode(morse) == text + DecodeTokens(tokens[i..])
    ensures Scanning(morse, text, tokens[i], 0, DecodeTokens(tokens[i + 1..]))
  {
    assert tokens[i..][1..] == tokens[i + 1..];
    assert Table[0..] == Table;
  }

  /** The scan of a token over: on to the next token. */
  lemma TokenDone(morse: string, text: string, tokens: seq<string>, i: nat)
    requires i < |tokens| && Scanning(morse, text, tokens[i], |Table|, DecodeTokens(tokens[i + 1..]))
    ensures Decode(morse) == text + DecodeTokens(tokens[i + 1..])
  {
    assert Table[|Table|..] == [];
    assert text + [] == text;
  }

  method MorseToText(morse: string) returns (text: string)
    ensures text == Decode(morse)
  {
    text := "";
    var tokens := SplitOn(morse, ' ');
    assert tokens[0..] == tokens;
    for i := 0 to |tokens|
      invariant Decode(morse) == text + DecodeTokens(tokens[i..])
    {
      var token := tokens[i];
      ghost var after := DecodeTokens(tokens[i + 1..]);
      TokenStep(morse, text, tokens, i);
      for j := 0 to |Table|
        invariant Scanning(morse, text, token, j, after)
      {
        ScanStep(morse, text, token, j, after);
        var (key, value) := Table[j];
        if value == token {
          text := text + [key];
        }
      }
      TokenDone(morse, text, tokens, i);
    }
    assert tokens[|tokens|..] == [];
    assert text + [] == text;
  }

  // ---------------------------------------------------------------------
  // The shape of the table

  /** An item with a non-empty code free of spaces and a key that is not a
      lower-case letter. */
  predicate Plain(e: Entry)
  {
    e.1 != [] && ' ' !in e.1 && !IsLower(e.0)
  }

  predicate AllPlain(t: seq<Entry>)
  {
    forall i :: 0 <= i < |t| ==> Plain(t[i])
  }

  /** No two items share a code, except an earlier C and a later K. */
  predicate Within(t: seq<Entry>)
  {
    forall i, j :: 0 <= i < j < |t| ==> t[i].1 != t[j].1 || (t[i].0 == 'C' && t[j].0 == 'K')
  }

  /** No item of `a` shares a code with an item of `b`. */
  predicate Apart(a: seq<Entry>, b: seq<Entry>)
  {
    forall i, j :: 0 <= i < |a| && 0 <= j < |b| ==> a[i].1 != b[j].1
  }

  lemma PlainAppend(a: seq<Entry>, b: seq<Entry>)
    requires AllPlain(a) && AllPlain(b)
    ensures AllPlain(a + b)
  {
    var t := a + b;
    forall i | 0 <= i < |t| ensures Plain(t[i]) {
      if i < |a| {
        assert t[i] == a[i];
      } else {
        assert t[i] == b[i - |a|];
      }
    }
  }

  lemma WithinAppend(a: seq<Entry>, b: seq<Entry>)
    requires Within(a) && Within(b) && Apart(a, b)
    ensures Within(a + b)
  {
    var t := a + b;
    forall i, j | 0 <= i < j < |t| ensures t[i].1 != t[j].1 || (t[i].0 == 'C' && t[j].0 == 'K') {
      if j < |a| {
        assert t[i] == a[i] && t[j] == a[j];
      } else if i < |a| {
        assert t[i] == a[i] && t[j] == b[j - |a|];
      } else {
        assert t[i] == b[i - |a|] && t[j] == b[j - |a|];
      }
    }
  }

  lemma ApartAppend(a: seq<Entry>, b: seq<Entry>, c: seq<Entry>)
    requires Apart(a, c) && Apart(b, c)
    ensures Apart(a + b, c)
  {
    var t := a + b;
    forall i, j | 0 <= i < |t| && 0 <= j < |c| ensures t[i].1 != c[j].1 {
      if i < |a| {
        assert t[i] == a[i];
      } else {
        assert t[i] == b[i - |a|];
      }
    }
  }

  lemma FirstLettersPlain()
    ensures AllPlain(FirstLetters)
  {
  }

  lemma FirstLettersWithin()
    ensures Within(FirstLetters)
  {
  }

  lemma LastLettersPlain()
    ensures AllPlain(LastLetters)
  {
  }

  lemma LastLettersWithin()
    ensures Within(LastLetters)
  {
  }

  lemma DigitCodesPlain()
    ensures AllPlain(DigitCodes)
  {
  }

  lemma DigitCodesWithin()
    ensures Within(DigitCodes)
  {
  }

  lemma SignCodesPlain()
    ensures AllPlain(SignCodes)
  {
  }

  lemma SignCodesWithin()
    ensures Within(SignCodes)
  {
  }

  lemma FirstLettersApartLastLetters()
    ensures Apart(FirstLetters, LastLetters)
  {
  }

  lemma FirstLettersApartDigitCodes()
    ensures Apart(FirstLetters, DigitCodes)
  {
  }

  lemma FirstLettersApartSignCodes()
    ensures Apart(FirstLetters, SignCodes)
  {
  }

  lemma LastLettersApartDigitCodes()
    ensures Apart(LastLetters, DigitCodes)
  {
  }

  lemma LastLettersApartSignCodes()
    ensures Apart(LastLetters, SignCodes)
  {
  }

  lemma DigitCodesApartSignCodes()
    ensures Apart(DigitCodes, SignCodes)
  {
  }

  /** Every code is non-empty and free of spaces, no key is a lower-case
      letter, and only C and K share a code. */
  lemma TableShape()
    ensures AllPlain(Table) && Within(Table)
  {
    FirstLettersPlain(); FirstLettersWithin(); LastLettersPlain(); LastLettersWithin();
    DigitCodesPlain(); DigitCodesWithin(); SignCodesPlain(); SignCodesWithin();
    FirstLettersApartLastLetters(); FirstLettersApartDigitCodes(); FirstLettersApartSignCodes();
    LastLettersApartDigitCodes(); LastLettersApartSignCodes(); DigitCodesApartSignCodes();
    var letters := FirstLetters + LastLetters;
    PlainAppend(FirstLetters, LastLetters);
    WithinAppend(FirstLetters, LastLetters);
    ApartAppend(FirstLetters, LastLetters, DigitCodes);
    PlainAppend(letters, DigitCodes);
    WithinAppend(letters, DigitCodes);
    ApartAppend(FirstLetters, LastLetters, SignCodes);
    ApartAppend(letters, DigitCodes, SignCodes);
    PlainAppend(letters + DigitCodes, SignCodes);
    WithinAppend(letters + DigitCodes, SignCodes);
  }

  // ---------------------------------------------------------------------
  // Properties

  lemma {:induction false} KeysForAppend(token: string, a: seq<Entry>, b: seq<Entry>)
    ensures KeysFor(token, a + b) == KeysFor(token, a) + KeysFor(token, b)
    decreases |a|
  {
    if a == [] {
      assert a + b == b;
    } else {
      assert (a + b)[1..] == a[1..] + b;
      KeysForAppend(token, a[1..], b);
    }
  }

  /** A code that only item `i` has decodes to that item's key alone. */
  lemma {:induction false} KeysForOnly(t: seq<Entry>, i: nat)
    requires i < |t|
    requires forall j :: 0 <= j < |t| && j != i ==> t[j].1 != t[i].1
    ensures KeysFor(t[i].1, t) == [t[i].0]
    decreases |t|
  {
    if i == 0 {
      assert forall j :: 0 <= j < |t[1..]| ==> t[1..][j].1 != t[0].1;
    } else {
      assert t[0].1 != t[i].1;
      assert forall j :: 0 <= j < |t[1..]| && j != i - 1 ==> t[1..][j].1 != t[1..][i - 1].1;
      KeysForOnly(t[1..], i - 1);
    }
  }

  /** A code that exactly items `i` and `k` have decodes to both keys. */
  lemma {:induction false} KeysForPair(t: seq<Entry>, i: nat, k: nat)
    requires i < k < |t| && t[i].1 == t[k].1
    requires forall j :: 0 <= j < |t| && j != i && j != k ==> t[j].1 != t[i].1
    ensures KeysFor(t[i].1, t) == [t[i].0, t[k].0]
    decreases |t|
  {
    if i == 0 {
      assert forall j :: 0 <= j < |t[1..]| && j != k - 1 ==> t[1..][j].1 != t[1..][k - 1].1;
      KeysForOnly(t[1..], k - 1);
    } else {
      assert t[0].1 != t[i].1;
      assert forall j :: 0 <= j < |t[1..]| && j != i - 1 && j != k - 1 ==> t[1..][j].1 != t[1..][i - 1].1;
      KeysForPair(t[1..], i - 1, k - 1);
    }
  }

  /** A code of `a` matches no item of `b` when the two are apart. */
  lemma KeysForApart(a: seq<Entry>, b: seq<Entry>, i: nat)
    requires Apart(a, b) && i < |a|
    ensures KeysFor(a[i].1, b) == ""
  {
  }

  lemma FirstLettersShareCode()
    ensures KeysFor("-.-", FirstLetters) == "CK"
  {
    KeysForPair(FirstLetters, 2, 10);
  }

  /** No code is the empty token, which the trailing space leaves behind. */
  lemma EmptyToken()
    ensures KeysFor("", Table) == ""
  {
    TableShape();
    assert forall i :: 0 <= i < |Table| ==> Plain(Table[i]);
  }

  /** Where C and K sit in the table. */
  lemma CAndK()
    ensures Table[2] == ('C', "-.-") && Table[10] == ('K', "-.-")
  {
  }

  /** "-.-" is a code of the first letters, so no later item has it. */
  lemma OthersLackSharedCode()
    ensures KeysFor("-.-", LastLetters) == ""
    ensures KeysFor("-.-", DigitCodes) == ""
    ensures KeysFor("-.-", SignCodes) == ""
  {
    assert FirstLetters[2].1 == "-.-";
    FirstLettersApartLastLetters();
    KeysForApart(FirstLetters, LastLetters, 2);
    FirstLettersApartDigitCodes();
    KeysForApart(FirstLetters, DigitCodes, 2);
    FirstLettersApartSignCodes();
    KeysForApart(FirstLetters, SignCodes, 2);
  }

  /** Only C and K have the code "-.-". */
  lemma TableSharesCode()
    ensures KeysFor("-.-", Table) == "CK"
  {
    FirstLettersShareCode();
    OthersLackSharedCode();
    KeysForAppend("-.-", FirstLetters, LastLetters);
    KeysForAppend("-.-", FirstLetters + LastLetters, DigitCodes);
    KeysForAppend("-.-", FirstLetters + LastLetters + DigitCodes, SignCodes);
  }

  /** The table is not injective: "-.-" decodes to both C and K. */
  lemma SharedCode()
    ensures Decode("-.- ") == "CK"
  {
    SplitOnPart("-.-", ' ', "");
    assert "-.-" + [' '] + "" == "-.- ";
    TableSharesCode();
    EmptyToken();
  }

  /** In a table where only an earlier C and a later K share a code, the code
      of any other key is that key's alone. */
  lemma WithinOnly(t: seq<Entry>, p: nat)
    requires Within(t) && p < |t| && t[p].0 != 'C' && t[p].0 != 'K'
    ensures KeysFor(t[p].1, t) == [t[p].0]
  {
    KeysForOnly(t, p);
  }

  /** A code, the separator, then the rest: the code's keys come first. */
  lemma DecodeFront(code: string, rest: string)
    requires ' ' !in code
    ensures Decode(code + " " + rest) == KeysFor(code, Table) + Decode(rest)
  {
    SplitOnPart(code, ' ', rest);
    assert code + " " + rest == code + [' '] + rest;
    var tokens := [code] + SplitOn(rest, ' ');
    assert tokens[0] == code && tokens[1..] == SplitOn(rest, ' ');
  }

  /** The code of a key other than C and K is free of spaces and decodes
      to that key alone. */
  lemma KeyAlone(ch: char)
    requires IsKey(ch) && ch != 'C' && ch != 'K'
    ensures ' ' !in Table[Position(Table, ch).value].1
    ensures KeysFor(Table[Position(Table, ch).value].1, Table) == [ch]
  {
    var p := Position(Table, ch).value;
    TableShape();
    assert Plain(Table[p]);
    WithinOnly(Table, p);
  }

  /** `morse_to_text(text_to_morse(t)) == t` for any text over the keys
      other than C and K. */
  lemma {:induction false} RoundTrip(text: string)
    requires forall i :: 0 <= i < |text| ==> IsKey(text[i]) && text[i] != 'C' && text[i] != 'K'
    ensures Encode(text).Success?
    ensures Decode(Encode(text).value) == text
    decreases |text|
  {
    if text == [] {
      EmptyToken();
      assert SplitOn("", ' ') == [""];
    } else {
      assert forall i :: 0 <= i < |text| - 1 ==> text[1..][i] == text[i + 1];
      RoundTrip(text[1..]);
      var code := Table[Position(Table, text[0]).value].1;
      var rest := Encode(text[1..]).value;
      assert Encode(text) == Success(code + " " + rest);
      KeyAlone(text[0]);
      DecodeFront(code, rest);
      assert [text[0]] + text[1..] == text;
    }
  }

  /** A lower-case letter is not a key, so `text_to_morse` raises KeyError. */
  lemma LowerCaseRejected(text: string, i: nat)
    requires i < |text| && IsLower(text[i])
    ensures Encode(text) == Failure(KeyError)
  {
    TableShape();
    assert !IsKey(text[i]) by {
      forall j | 0 <= j < |Table| ensures Table[j].0 != text[i] {
        assert Plain(Table[j]);
      }
    }
  }

  /** The characters of the program's own message are keys. */
  lemma HelloWorldKeys()
    ensures forall i :: 0 <= i < |"HELLO WORLD"| ==>
      IsKey("HELLO WORLD"[i]) && "HELLO WORLD"[i] != 'C' && "HELLO WORLD"[i] != 'K'
  {
    assert Table[7].0 == 'H' && Table[4].0 == 'E' && Table[11].0 == 'L' && Table[14].0 == 'O';
    assert Table[40].0 == ' ' && Table[22].0 == 'W' && Table[17].0 == 'R' && Table[3].0 == 'D';
  }

  /** The program's own message comes back from its Morse form. */
  lemma HelloWorld()
    ensures Encode("HELLO WORLD").Success?
    ensures Decode(Encode("HELLO WORLD").value) == "HELLO WORLD"
  {
    HelloWorldKeys();
    RoundTrip("HELLO WORLD");
  }
}
