/** The password generator and the rule-based strength check of
    passwordGenerator.py. Character classes are the ASCII ones. */
module PasswordGenerator {
  import opened Wrappers
  import opened Strings

  // ---------------------------------------------------------------------
  // Strength check

  /** What the regular expressions see: `\d`, `[A-Z]`, `[a-z]`, and `\W`,
      which matches anything that is not a letter, a digit or `'_'`. */
  predicate IsWordChar(c: char) { IsUpper(c) || IsLower(c) || IsDigit(c) || c == '_' }

  predicate HasDigit(p: string) { exists i :: 0 <= i < |p| && IsDigit(p[i]) }
  predicate HasUpper(p: string) { exists i :: 0 <= i < |p| && IsUpper(p[i]) }
  predicate HasLower(p: string) { exists i :: 0 <= i < |p| && IsLower(p[i]) }
  predicate HasSpecial(p: string) { exists i :: 0 <= i < |p| && !IsWordChar(p[i]) }

  /** The five checks, in the order their messages are reported. */
  datatype Check = Length | Digit | Uppercase | Lowercase | Special

  const AllChecks: seq<Check> := [Length, Digit, Uppercase, Lowercase, Special]

  function Rank(c: Check): (k: nat)
    ensures k < |AllChecks| && AllChecks[k] == c
  {
    match c
    case Length => 0
    case Digit => 1
    case Uppercase => 2
    case Lowercase => 3
    case Special => 4
  }

  /** The check `c` fails on `p`. */
  predicate Fails(c: Check, p: string)
  {
    match c
    case Length => |p| < 8
    case Digit => !HasDigit(p)
    case Uppercase => !HasUpper(p)
    case Lowercase => !HasLower(p)
    case Special => !HasSpecial(p)
  }

  /** The message of a failed check: "Password should " and what to do. */
  function Message(c: Check): string
  {
    "Password should " + Advice(c)
  }

  function Advice(c: Check): string
  {
    match c
    case Length => "be at least 8 characters long."
    case Digit => "contain at least one digit."
    case Uppercase => "contain at least one uppercase letter."
    case Lowercase => "contain at least one lowercase letter."
    case Special => "contain at least one special character."
  }

  const StrongMessage := "Password is strong" + " and meets the complexity requirements."
  const WeakHeader := "Password is weak." + " Please consider the following:\n"

  /** Running check `c` after the checks `fs`: a failure is recorded at the
      end. */
  function Then(fs: seq<Check>, c: Check, p: string): seq<Check>
  {
    if Fails(c, p) then fs + [c] else fs
  }

  /** The checks that fail on `p`, each at most once and in the fixed order
      length, digit, uppercase, lowercase, special. */
  function Failed(p: string): (fs: seq<Check>)
    ensures forall c :: c in fs <==> Fails(c, p)
    ensures forall i, j :: 0 <= i < j < |fs| ==> Rank(fs[i]) < Rank(fs[j])
  {
    var f1 := Then([], Length, p);
    ThenStep([], Length, p);
    var f2 := Then(f1, Digit, p);
    ThenStep(f1, Digit, p);
    var f3 := Then(f2, Uppercase, p);
    ThenStep(f2, Uppercase, p);
    var f4 := Then(f3, Lowercase, p);
    ThenStep(f3, Lowercase, p);
    ThenStep(f4, Special, p);
    Then(f4, Special, p)
  }

  /** The failed checks among those ranked below `k`, in rank order. */
  predicate FailedBelow(fs: seq<Check>, p: string, k: nat)
  {
    && (forall c :: c in fs <==> Fails(c, p) && Rank(c) < k)
    && (forall i, j :: 0 <= i < j < |fs| ==> Rank(fs[i]) < Rank(fs[j]))
  }

  /** Running the check of rank `k` extends the failures below `k` to those
      below `k + 1`. */
  lemma ThenStep(fs: seq<Check>, c: Check, p: string)
    requires FailedBelow(fs, p, Rank(c))
    ensures FailedBelow(Then(fs, c, p), p, Rank(c) + 1)
  {
    assert forall x :: x in fs ==> Rank(x) < Rank(c);
    assert forall x :: Rank(x) == Rank(c) ==> x == c;
  }

  function Messages(fs: seq<Check>): (ms: seq<string>)
    ensures |ms| == |fs|
    ensures forall i :: 0 <= i < |fs| ==> ms[i] == Message(fs[i])
  {
    if fs == [] then [] else [Message(fs[0])] + Messages(fs[1..])
  }

  lemma MessagesSnoc(fs: seq<Check>, c: Check)
    ensures Messages(fs + [c]) == Messages(fs) + [Message(c)]
  {
    assert |Messages(fs + [c])| == |Messages(fs) + [Message(c)]|;
  }

  /** `evaluate_strength(password)`: the checks are run one after the other
      and each failure appends its message to `errors`. */
  method EvaluateStrength(password: string) returns (verdict: string)
    ensures Failed(password) == [] ==> verdict == StrongMessage
    ensures Failed(password) != [] ==>
      verdict == WeakHeader + Join(Messages(Failed(password)), "\n")
  {
    var lengthError := |password| < 8;
    var digitError := !HasDigit(password);
    var uppercaseError := !HasUpper(password);
    var lowercaseError := !HasLower(password);
    var specialCharError := !HasSpecial(password);

    var errors: seq<string> := [];
    ghost var failed: seq<Check> := [];
    if lengthError {
      MessagesSnoc(failed, Length);
      errors := errors + [Message(Length)];
    }
    failed := Then(failed, Length, password);
    if digitError {
      MessagesSnoc(failed, Digit);
      errors := errors + [Message(Digit)];
    }
    failed := Then(failed, Digit, password);
    if uppercaseError {
      MessagesSnoc(failed, Uppercase);
      errors := errors + [Message(Uppercase)];
    }
    failed := Then(failed, Uppercase, password);
    if lowercaseError {
      MessagesSnoc(failed, Lowercase);
      errors := errors + [Message(Lowercase)];
    }
    failed := Then(failed, Lowercase, password);
    if specialCharError {
      MessagesSnoc(failed, Special);
      errors := errors + [Message(Special)];
    }
    failed := Then(failed, Special, password);

    if errors == [] {
      verdict := StrongMessage;
    } else {
      verdict := WeakHeader + Join(errors, "\n");
    }
  }

  /** A weak verdict never reads as the strong one: they differ at the
      thirteenth character. */
  lemma WeakIsNotStrong(rest: string)
    ensures WeakHeader + rest != StrongMessage
  {
    assert (WeakHeader + rest)[12] == 'w';
    assert StrongMessage[12] == 's';
  }

  /** The strong message comes back exactly when the password has at least
      eight characters and contains a digit, an upper case letter, a lower
      case letter and a character that is not a word character. */
  lemma StrongIff(p: string)
    ensures Failed(p) == [] <==> |p| >= 8 && HasDigit(p) && HasUpper(p) && HasLower(p) && HasSpecial(p)
  {
    if Failed(p) != [] {
      assert Failed(p)[0] in Failed(p);
    } else {
      assert !Fails(Length, p) && !Fails(Digit, p) && !Fails(Special, p);
      assert !Fails(Uppercase, p) && !Fails(Lowercase, p);
    }
  }

  /** Every message appears at most once, and in check order. */
  lemma MessagesOnce(p: string)
    ensures var ms := Messages(Failed(p));
      forall i, j :: 0 <= i < j < |ms| ==> ms[i] != ms[j]
  {
    var fs := Failed(p);
    forall i, j | 0 <= i < j < |fs| ensures Message(fs[i]) != Message(fs[j]) {
      MessageInjective(fs[i], fs[j]);
    }
  }

  lemma MessageInjective(a: Check, b: Check)
    ensures Message(a) == Message(b) ==> a == b
  {
    if Message(a) == Message(b) {
      assert Advice(a) == Message(a)[16..];
      assert Advice(b) == Message(b)[16..];
      // The advices differ in their first or their 22nd character.
      assert Advice(a)[0] == Advice(b)[0];
      if a != Length && b != Length {
        assert Advice(a)[21] == Advice(b)[21];
      }
    }
  }

  /** `'_'` is a word character, so it does not count as special. */
  lemma UnderscoreNotSpecial(p: string)
    requires forall i :: 0 <= i < |p| ==> IsWordChar(p[i])
    ensures Special in Failed(p)
  {
  }

  /** An eight-character password with all classes but only `'_'` as its
      symbol fails exactly the special-character check. */
  lemma OnlyUnderscore()
    ensures Failed("Passw0r_") == [Special]
  {
    var p := "Passw0r_";
    assert IsDigit(p[5]) && IsUpper(p[0]) && IsLower(p[1]);
    assert forall i :: 0 <= i < |p| ==> IsWordChar(p[i]);
    assert forall c :: c in Failed(p) <==> c == Special;
    assert Failed(p)[0] == Special;
  }

  // ---------------------------------------------------------------------
  // Generator

  /** The pool `generate_password` draws from: the selected classes in the
      order upper case, lower case, digits, punctuation. */
  function Pool(upper: bool, lower: bool, numbers: bool, special: bool): string
  {
    Add(Add(Add(Add("", upper, AsciiUppercase), lower, AsciiLowercase), numbers, Digits), special, Punctuation)
  }

  /** `characters += chars` when `selected`. */
  function Add(characters: string, selected: bool, chars: string): string
  {
    if selected then characters + chars else characters
  }

  /** ASCII punctuation: the printable characters that are not letters,
      digits or the space. */
  predicate IsPunctuation(c: char)
  {
    ('!' <= c <= '/') || (':' <= c <= '@') || ('[' <= c <= '`') || ('{' <= c <= '~')
  }

  lemma UppercaseMembers()
    ensures forall c :: c in AsciiUppercase <==> IsUpper(c)
  {
    forall c | IsUpper(c) ensures c in AsciiUppercase {
      assert AsciiUppercase[c as int - 'A' as int] == c;
    }
  }

  lemma LowercaseMembers()
    ensures forall c :: c in AsciiLowercase <==> IsLower(c)
  {
    forall c | IsLower(c) ensures c in AsciiLowercase {
      assert AsciiLowercase[c as int - 'a' as int] == c;
    }
  }

  lemma DigitMembers()
    ensures forall c :: c in Digits <==> IsDigit(c)
  {
    forall c | IsDigit(c) ensures c in Digits {
      assert Digits[c as int - '0' as int] == c;
    }
  }

  /** The four runs of ASCII punctuation, at offsets 0, 15, 22 and 28 of
      `string.punctuation`. */
  lemma PunctuationRun(lo: char, hi: char, offset: nat)
    requires (lo, hi, offset) in {('!', '/', 0), (':', '@', 15), ('[', '`', 22), ('{', '~', 28)}
    ensures forall c :: lo <= c <= hi ==> c in Punctuation
  {
    forall c | lo <= c <= hi ensures c in Punctuation {
      assert Punctuation[c as int - lo as int + offset] == c;
    }
  }

  lemma PunctuationMembers()
    ensures forall c :: c in Punctuation <==> IsPunctuation(c)
  {
    PunctuationRun('!', '/', 0);
    PunctuationRun(':', '@', 15);
    PunctuationRun('[', '`', 22);
    PunctuationRun('{', '~', 28);
    assert forall k :: 0 <= k < |Punctuation| ==> IsPunctuation(Punctuation[k]);
  }

  /** A character is in the pool exactly when its class was selected; the
      pool has 26, 26, 10 and 32 characters for the four classes. */
  lemma PoolMembers(upper: bool, lower: bool, numbers: bool, special: bool)
    ensures forall c :: c in Pool(upper, lower, numbers, special) <==>
      (upper && IsUpper(c)) || (lower && IsLower(c)) || (numbers && IsDigit(c)) ||
      (special && IsPunctuation(c))
    ensures |Pool(upper, lower, numbers, special)| ==
      (if upper then 26 else 0) + (if lower then 26 else 0) +
      (if numbers then 10 else 0) + (if special then 32 else 0)
  {
    UppercaseMembers();
    LowercaseMembers();
    DigitMembers();
    PunctuationMembers();
  }

  /** `generate_password(length, ...)`: the pool is built with `+=`, then
      `length` characters are drawn from it one by one. The draw of
      `random.choice` is left open: any character of the pool may come out.
      An empty pool makes `random.choice` raise `IndexError` as soon as one
      character is drawn; a negative length draws nothing. */
  method GeneratePassword(length: int, upper: bool, lower: bool, numbers: bool, special: bool)
    returns (r: Result<string>)
    ensures r.Failure? <==> length > 0 && Pool(upper, lower, numbers, special) == []
    ensures r.Failure? ==> r.error == IndexError
    ensures r.Success? ==> |r.value| == (if length < 0 then 0 else length)
    ensures r.Success? ==> forall i :: 0 <= i < |r.value| ==>
      r.value[i] in Pool(upper, lower, numbers, special)
  {
    var characters: string := "";
    ghost var pool := characters;
    if upper {
      characters := characters + AsciiUppercase;
    }
    pool := Add(pool, upper, AsciiUppercase);
    assert characters == pool;
    if lower {
      characters := characters + AsciiLowercase;
    }
    pool := Add(pool, lower, AsciiLowercase);
    assert characters == pool;
    if numbers {
      characters := characters + Digits;
    }
    pool := Add(pool, numbers, Digits);
    assert characters == pool;
    if special {
      characters := characters + Punctuation;
    }
    pool := Add(pool, special, Punctuation);
    assert characters == Pool(upper, lower, numbers, special);

    var password: string := "";
    var k := 0;
    while k < length
      invariant 0 <= k && (length >= 0 ==> k <= length) && (length < 0 ==> k == 0)
      invariant |password| == k
      invariant forall i :: 0 <= i < k ==> password[i] in characters
      invariant k > 0 ==> characters != []
    {
      if characters == [] {
        return Failure(IndexError);
      }
      assert characters[0] in characters;
      var c :| c in characters;
      password := password + [c];
      k := k + 1;
    }
    return Success(password);
  }

  /** `generate_and_evaluate_password`: a generated password together with
      the verdict of the strength check on it. */
  method GenerateAndEvaluate(length: int, upper: bool, lower: bool, numbers: bool, special: bool)
    returns (r: Result<(string, string)>)
    ensures r.Failure? <==> length > 0 && Pool(upper, lower, numbers, special) == []
    ensures r.Success? ==> |r.value.0| == (if length < 0 then 0 else length)
    ensures r.Success? ==> forall i :: 0 <= i < |r.value.0| ==>
      r.value.0[i] in Pool(upper, lower, numbers, special)
    ensures r.Failure? ==> r.error == IndexError
    ensures r.Success? ==> r.value.1 == (if Failed(r.value.0) == [] then StrongMessage
                                         else WeakHeader + Join(Messages(Failed(r.value.0)), "\n"))
    ensures r.Success? ==>
      (r.value.1 == StrongMessage <==> Failed(r.value.0) == [])
  {
    var password := GeneratePassword(length, upper, lower, numbers, special);
    if password.Failure? {
      return Failure(password.error);
    }
    var verdict := EvaluateStrength(password.value);
    if Failed(password.value) != [] {
      WeakIsNotStrong(Join(Messages(Failed(password.value)), "\n"));
    }
    return Success((password.value, verdict));
  }
}
