/** The contact book of contactBook.py: contacts kept in a list, saved one
    line per contact as "name, email, phone", and loaded back by splitting
    each line at its commas. The file system is a map from file names to
    file contents. */
module ContactBook {
  import opened Wrappers
  import opened Strings

  datatype Contact = Contact(name: string, email: string, phone: string)
  {
    /** `Contact.to_string`: the fields joined by ", " and ended by a
        newline. */
    function ToString(): string
    {
      name + ", " + email + ", " + phone + "\n"
    }
  }

  /** A field that survives the parse of its line: no comma, and no
      whitespace at either end. */
  predicate LineField(field: string)
  {
    ',' !in field && (field == [] || (!IsSpace(field[0]) && !IsSpace(field[|field| - 1])))
  }

  predicate LineContact(c: Contact)
  {
    LineField(c.name) && LineField(c.email) && LineField(c.phone)
  }

  /** A field that also survives the split of the file into lines: no
      line break either, neither '\n' nor the '\r' that reading in text
      mode turns into one. */
  predicate Clean(field: string)
  {
    LineField(field) && '\n' !in field && '\r' !in field
  }

  predicate CleanContact(c: Contact)
  {
    Clean(c.name) && Clean(c.email) && Clean(c.phone)
  }

  /** The per-line parse of `load_contacts_from_file`: split at every comma
      and strip each part; unpacking into three names raises `ValueError`
      unless there are exactly three parts. */
  function ParseLine(line: string): (r: Result<Contact>)
    ensures r.Failure? <==> |SplitOn(line, ',')| != 3
    ensures r.Failure? ==> r.error == ValueError
    ensures r.Success? ==> r.value.name == Strip(SplitOn(line, ',')[0])
    ensures r.Success? ==> r.value.email == Strip(SplitOn(line, ',')[1])
    ensures r.Success? ==> r.value.phone == Strip(SplitOn(line, ',')[2])
  {
    var parts := SplitOn(line, ',');
    if |parts| != 3 then Failure(ValueError)
    else Success(Contact(Strip(parts[0]), Strip(parts[1]), Strip(parts[2])))
  }

  /** The line of a contact whose fields hold no comma splits back into
      the three fields, the last two with their padding. */
  lemma SplitToString(c: Contact)
    requires ',' !in c.name && ',' !in c.email && ',' !in c.phone
    ensures SplitOn(c.ToString(), ',') == [c.name, " " + c.email, " " + c.phone + "\n"]
  {
    var last := " " + c.phone + "\n";
    var middle := " " + c.email + [','] + last;
    assert c.ToString() == c.name + [','] + middle;
    SplitOnPart(c.name, ',', middle);
    SplitOnPart(" " + c.email, ',', last);
    SplitOnWithoutSeparator(last, ',');
  }

  /** Stripping the padded fields gives the clean fields. */
  lemma StripFields(c: Contact)
    requires LineContact(c)
    ensures Strip(c.name) == c.name
    ensures Strip(" " + c.email) == c.email
    ensures Strip(" " + c.phone + "\n") == c.phone
  {
    StripPadded([], c.name, []);
    assert [] + c.name + [] == c.name;
    StripPadded(" ", c.email, []);
    assert " " + c.email + [] == " " + c.email;
    StripPadded(" ", c.phone, "\n");
  }

  /** Parsing the line of a contact with clean fields gives the contact
      back. */
  lemma ParseToString(c: Contact)
    requires LineContact(c)
    ensures ParseLine(c.ToString()) == Success(c)
  {
    SplitToString(c);
    StripFields(c);
  }

  /** What `open(name, 'r')` reads, with universal newlines: every "\r\n"
      and every other '\r' becomes '\n'. */
  function Translate(text: string): (t: string)
    ensures '\r' !in t
    ensures |t| <= |text|
    decreases |text|
  {
    if text == [] then []
    else if text[0] == '\r' && |text| > 1 && text[1] == '\n' then "\n" + Translate(text[2..])
    else if text[0] == '\r' then "\n" + Translate(text[1..])
    else [text[0]] + Translate(text[1..])
  }

  /** A text without '\r' is read as written. */
  lemma {:induction false} TranslatePlain(text: string)
    requires '\r' !in text
    ensures Translate(text) == text
    decreases |text|
  {
    if text != [] {
      assert '\r' !in text[1..];
      TranslatePlain(text[1..]);
    }
  }

  /** Both line breaks that text mode recognises become '\n' once read. */
  lemma TranslateBreaks(a: string, b: string)
    requires '\r' !in a && '\r' !in b && (b == [] || b[0] != '\n')
    ensures Translate(a + ("\r\n" + b)) == a + ("\n" + b)
    ensures Translate(a + ("\r" + b)) == a + ("\n" + b)
  {
    TranslateAppendPlain(a, "\r\n" + b);
    TranslateAppendPlain(a, "\r" + b);
    TranslateCrLf(b);
    TranslateCr(b);
  }

  lemma TranslateCrLf(b: string)
    requires '\r' !in b
    ensures Translate("\r\n" + b) == "\n" + b
  {
    var t := "\r\n" + b;
    assert t[0] == '\r' && t[1] == '\n' && t[2..] == b;
    TranslatePlain(b);
  }

  lemma TranslateCr(b: string)
    requires '\r' !in b && (b == [] || b[0] != '\n')
    ensures Translate("\r" + b) == "\n" + b
  {
    var t := "\r" + b;
    assert t[0] == '\r' && t[1..] == b;
    TranslatePlain(b);
  }

  lemma {:induction false} TranslateAppendPlain(a: string, b: string)
    requires '\r' !in a
    ensures Translate(a + b) == a + Translate(b)
    decreases |a|
  {
    if a == [] {
      assert a + b == b;
    } else {
      assert (a + b)[0] == a[0] && (a + b)[1..] == a[1..] + b;
      assert '\r' !in a[1..];
      TranslateAppendPlain(a[1..], b);
      assert [a[0]] + (a[1..] + Translate(b)) == a + Translate(b);
    }
  }

  /** The length of the first line of `text`, its newline included. */
  function LineEnd(text: string): (n: nat)
    requires text != []
    ensures 1 <= n <= |text|
    ensures '\n' !in text[..n - 1]
    ensures n < |text| ==> text[n - 1] == '\n'
    decreases |text|
  {
    if text[0] == '\n' || |text| == 1 then 1
    else
      var n := 1 + LineEnd(text[1..]);
      assert text[..n - 1] == [text[0]] + text[1..][..n - 2];
      n
  }

  /** `for line in reader`: the lines of a file, each with its newline;
      the last one lacks it when the file does not end in a newline. */
  function Lines(text: string): (ls: seq<string>)
    ensures forall i :: 0 <= i < |ls| ==> ls[i] != []
    decreases |text|
  {
    if text == [] then [] else [text[..LineEnd(text)]] + Lines(text[LineEnd(text)..])
  }

  lemma {:induction false} LineEndOf(l: string, rest: string)
    requires l != [] && l[|l| - 1] == '\n' && '\n' !in l[..|l| - 1]
    ensures LineEnd(l + rest) == |l|
    decreases |l|
  {
    if |l| > 1 {
      assert l[0] in l[..|l| - 1];
      assert (l + rest)[1..] == l[1..] + rest;
      assert l[1..][..|l| - 2] == l[..|l| - 1][1..];
      LineEndOf(l[1..], rest);
    }
  }

  /** A line ended by its only newline is the first line of what follows. */
  lemma LinesCons(l: string, rest: string)
    requires l != [] && l[|l| - 1] == '\n' && '\n' !in l[..|l| - 1]
    ensures Lines(l + rest) == [l] + Lines(rest)
  {
    LineEndOf(l, rest);
    assert (l + rest)[..|l|] == l;
    assert (l + rest)[|l|..] == rest;
  }

  /** The file written by `save_contacts_to_file`: every contact's line in
      order. */
  function Saved(cs: seq<Contact>): string
  {
    if cs == [] then [] else cs[0].ToString() + Saved(cs[1..])
  }

  lemma {:induction false} SavedSnoc(cs: seq<Contact>, c: Contact)
    ensures Saved(cs + [c]) == Saved(cs) + c.ToString()
    decreases |cs|
  {
    if cs == [] {
      assert [c][1..] == [];
    } else {
      assert (cs + [c])[1..] == cs[1..] + [c];
      SavedSnoc(cs[1..], c);
    }
  }

  /** The lines of a saved file are the contacts' lines, as long as no field
      holds a newline. */
  lemma {:induction false} LinesOfSaved(cs: seq<Contact>)
    requires forall i :: 0 <= i < |cs| ==> CleanContact(cs[i])
    ensures |Lines(Saved(cs))| == |cs|
    ensures forall i :: 0 <= i < |cs| ==> Lines(Saved(cs))[i] == cs[i].ToString()
    decreases |cs|
  {
    if cs != [] {
      var l := cs[0].ToString();
      assert l[..|l| - 1] == cs[0].name + ", " + cs[0].email + ", " + cs[0].phone;
      LinesCons(l, Saved(cs[1..]));
      LinesOfSaved(cs[1..]);
    }
  }

  /** The contacts that loading `lines` appends, and what it reports. */
  function Load(lines: seq<string>): (seq<Contact>, Outcome)
    decreases |lines|
  {
    if lines == [] then ([], Pass)
    else
      match ParseLine(lines[0])
      case Failure(e) => ([], Fail(e))
      case Success(c) =>
        var rest := Load(lines[1..]);
        ([c] + rest.0, rest.1)
  }

  /** Loading keeps the contacts of the lines before the first line that
      does not parse, and fails with that line's `ValueError`; when every
      line parses it keeps them all. */
  lemma {:induction false} LoadSpec(lines: seq<string>)
    ensures |Load(lines).0| <= |lines|
    ensures forall i :: 0 <= i < |Load(lines).0| ==> ParseLine(lines[i]) == Success(Load(lines).0[i])
    ensures Load(lines).1.Pass? <==> forall i :: 0 <= i < |lines| ==> ParseLine(lines[i]).Success?
    ensures Load(lines).1.Fail? ==> |Load(lines).0| < |lines| && ParseLine(lines[|Load(lines).0|]).Failure?
    ensures Load(lines).1.Fail? ==> Load(lines).1.error == ValueError
    ensures Load(lines).1.Pass? ==> |Load(lines).0| == |lines|
    decreases |lines|
  {
    if lines != [] && ParseLine(lines[0]).Success? {
      LoadSpec(lines[1..]);
      assert forall i :: 1 <= i < |lines| ==> lines[i] == lines[1..][i - 1];
    }
  }

  /** Loading `lines` agrees with having loaded `loaded` from the lines
      before `i` and loading on from line `i`. */
  ghost predicate LoadedSoFar(lines: seq<string>, i: nat, loaded: seq<Contact>)
    requires i <= |lines|
  {
    Load(lines).0 == loaded + Load(lines[i..]).0 && Load(lines).1 == Load(lines[i..]).1
  }

  lemma LoadBegin(lines: seq<string>)
    ensures LoadedSoFar(lines, 0, [])
  {
    assert lines[0..] == lines;
  }

  /** A line that parses adds its contact and the load goes on; one that
      does not ends the load with its error. */
  lemma LoadStep(lines: seq<string>, i: nat, loaded: seq<Contact>)
    requires i < |lines| && LoadedSoFar(lines, i, loaded)
    ensures ParseLine(lines[i]).Failure? ==> Load(lines) == (loaded, Fail(ParseLine(lines[i]).error))
    ensures ParseLine(lines[i]).Success? ==> LoadedSoFar(lines, i + 1, loaded + [ParseLine(lines[i]).value])
  {
    assert lines[i..][0] == lines[i] && lines[i..][1..] == lines[i + 1..];
    assert loaded + [] == loaded;
    if ParseLine(lines[i]).Success? {
      var c := ParseLine(lines[i]).value;
      assert loaded + ([c] + Load(lines[i + 1..]).0) == (loaded + [c]) + Load(lines[i + 1..]).0;
    }
  }

  lemma LoadEnd(lines: seq<string>, loaded: seq<Contact>)
    requires LoadedSoFar(lines, |lines|, loaded)
    ensures Load(lines) == (loaded, Pass)
  {
    assert lines[|lines|..] == [];
    assert loaded + [] == loaded;
  }

  /** Lines that all parse load as their contacts, with no error. */
  lemma {:induction false} LoadAll(lines: seq<string>, cs: seq<Contact>)
    requires |lines| == |cs|
    requires forall i :: 0 <= i < |cs| ==> ParseLine(lines[i]) == Success(cs[i])
    ensures Load(lines) == (cs, Pass)
    decreases |cs|
  {
    if cs != [] {
      LoadAll(lines[1..], cs[1..]);
      assert cs == [cs[0]] + cs[1..];
    }
  }

  /** A saved book of clean contacts holds no '\r'. */
  lemma {:induction false} SavedPlain(cs: seq<Contact>)
    requires forall i :: 0 <= i < |cs| ==> CleanContact(cs[i])
    ensures '\r' !in Saved(cs)
    decreases |cs|
  {
    if cs != [] {
      SavedPlain(cs[1..]);
    }
  }

  /** Loading a saved book of clean contacts gives every contact back, with
      no error. */
  lemma LoadSaved(cs: seq<Contact>)
    requires forall i :: 0 <= i < |cs| ==> CleanContact(cs[i])
    ensures Load(Lines(Translate(Saved(cs)))) == (cs, Pass)
  {
    SavedPlain(cs);
    TranslatePlain(Saved(cs));
    LinesOfSaved(cs);
    var lines := Lines(Saved(cs));
    forall i | 0 <= i < |cs| ensures ParseLine(lines[i]) == Success(cs[i]) {
      ParseToString(cs[i]);
    }
    LoadAll(lines, cs);
  }

  /** A '\r' inside a field ends the line when the file is read back: the
      saved line of `Contact("a\rb", "e", "p")` is read as "a\n" and
      "b, e, p\n", and the first of these does not unpack into three
      fields. */
  lemma ReturnInField()
    ensures Lines(Translate(Saved([Contact("a\rb", "e", "p")]))) == ["a\n", "b, e, p\n"]
    ensures Load(["a\n", "b, e, p\n"]) == ([], Fail(ValueError))
  {
    ReturnSaved();
    ReturnRead();
    ReturnLines();
    ReturnLoad();
  }

  lemma ReturnSaved()
    ensures Saved([Contact("a\rb", "e", "p")]) == "a" + ("\r" + "b, e, p\n")
  {
    assert [Contact("a\rb", "e", "p")][1..] == [];
  }

  lemma ReturnRead()
    ensures Translate("a" + ("\r" + "b, e, p\n")) == "a" + ("\n" + "b, e, p\n")
  {
    ReturnFree();
    TranslateBreaks("a", "b, e, p\n");
  }

  lemma ReturnFree()
    ensures '\r' !in "a" && '\r' !in "b, e, p\n" && "b, e, p\n"[0] != '\n'
  {
  }

  lemma ReturnLines()
    ensures Lines("a" + ("\n" + "b, e, p\n")) == ["a\n", "b, e, p\n"]
  {
    ReturnJoin();
    ReturnLineEnds();
    LinesCons("a\n", "b, e, p\n");
    LinesCons("b, e, p\n", []);
  }

  lemma ReturnJoin()
    ensures "a" + ("\n" + "b, e, p\n") == "a\n" + "b, e, p\n"
    ensures "b, e, p\n" + [] == "b, e, p\n"
  {
  }

  lemma ReturnLineEnds()
    ensures '\n' !in "a\n"[..1] && "a\n"[1] == '\n'
    ensures '\n' !in "b, e, p\n"[..7] && "b, e, p\n"[7] == '\n'
  {
  }

  lemma ReturnLoad()
    ensures Load(["a\n", "b, e, p\n"]) == ([], Fail(ValueError))
  {
    SplitOnWithoutSeparator("a\n", ',');
  }

  class ContactBook {
    var contactBook: seq<Contact>
    /** The file that saving and loading use; "contacts.txt" until a call
        names another one. */
    var fileName: string

    constructor ()
      ensures contactBook == [] && fileName == "contacts.txt"
    {
      contactBook := [];
      fileName := "contacts.txt";
    }

    method AddContact(contact: Contact)
      modifies this
      ensures contactBook == old(contactBook) + [contact]
      ensures fileName == old(fileName)
    {
      contactBook := contactBook + [contact];
    }

    /** `ContactBook.to_string` as written: the loop builds the text of the
        book, but the method has no `return`, so the caller gets `None`. */
    method ToStringAsWritten() returns (r: Option<string>)
      ensures r == None
    {
      var contacts := "";
      for i := 0 to |contactBook| {
        contacts := contacts + contactBook[i].ToString();
      }
      return None;
    }

    /** `ContactBook.to_string` with the missing `return contacts`: the text
        of the book, the same as the file a save writes. */
    method ToString() returns (contacts: string)
      ensures contacts == Saved(contactBook)
    {
      contacts := "";
      for i := 0 to |contactBook|
        invariant contacts == Saved(contactBook[..i])
      {
        SavedSnoc(contactBook[..i], contactBook[i]);
        assert contactBook[..i + 1] == contactBook[..i] + [contactBook[i]];
        contacts := contacts + contactBook[i].ToString();
      }
      assert contactBook[..|contactBook|] == contactBook;
    }

    /** `save_contacts_to_file`: the file that gets written and its text,
        one line per contact. */
    method SaveContacts(name: Option<string>) returns (file: string, text: string)
      modifies this
      ensures fileName == (if name.Some? then name.value else old(fileName))
      ensures file == fileName && contactBook == old(contactBook)
      ensures text == Saved(contactBook)
    {
      if name.Some? {
        fileName := name.value;
      }
      file := fileName;
      var contacts := contactBook;
      text := "";
      for i := 0 to |contacts|
        invariant text == Saved(contacts[..i])
        invariant fileName == file && contactBook == contacts
      {
        SavedSnoc(contacts[..i], contacts[i]);
        assert contacts[..i + 1] == contacts[..i] + [contacts[i]];
        text := text + contacts[i].ToString();
      }
      assert contacts[..|contacts|] == contacts;
    }

    /** `load_contacts_from_file`: a missing file is reported and changes no
        contact; otherwise the file is read in text mode, and the contacts of
        the lines that parse, up to the first one that does not, are appended
        to the book. */
    method LoadContacts(name: Option<string>, files: map<string, string>) returns (o: Outcome)
      modifies this
      ensures fileName == (if name.Some? && name.value != old(fileName) then name.value else old(fileName))
      ensures fileName !in files ==> o == Fail(FileNotFoundError) && contactBook == old(contactBook)
      ensures fileName in files ==>
        var loaded := Load(Lines(Translate(files[fileName])));
        contactBook == old(contactBook) + loaded.0 && o == loaded.1
    {
      if name.Some? && name.value != fileName {
        fileName := name.value;
      }
      if fileName !in files {
        return Fail(FileNotFoundError);
      }
      var lines := Lines(Translate(files[fileName]));
      ghost var chosen := fileName;
      ghost var loaded: seq<Contact> := [];
      LoadBegin(lines);
      for i := 0 to |lines|
        invariant fileName == chosen
        invariant contactBook == old(contactBook) + loaded
        invariant LoadedSoFar(lines, i, loaded)
      {
        LoadStep(lines, i, loaded);
        var parsed := ParseLine(lines[i]);
        if parsed.Failure? {
          return Fail(parsed.error);
        }
        contactBook := contactBook + [parsed.value];
        loaded := loaded + [parsed.value];
      }
      LoadEnd(lines, loaded);
      return Pass;
    }
  }

  /** Saving a book of clean contacts and loading the file into a new book
      gives a book with the same contacts. */
  method SaveThenLoad(cs: seq<Contact>) returns (copy: ContactBook)
    requires forall i :: 0 <= i < |cs| ==> CleanContact(cs[i])
    ensures copy.contactBook == cs
  {
    var book := new ContactBook();
    for i := 0 to |cs|
      invariant book.contactBook == cs[..i] && book.fileName == "contacts.txt"
    {
      book.AddContact(cs[i]);
      assert cs[..i + 1] == cs[..i] + [cs[i]];
    }
    assert cs[..|cs|] == cs;
    var file, text := book.SaveContacts(None);
    copy := new ContactBook();
    LoadSaved(cs);
    assert file == copy.fileName && text == Saved(cs);
    var o := copy.LoadContacts(None, map[file := text]);
    assert copy.contactBook == [] + Load(Lines(Translate(text))).0;
  }
}
