/**
 Hong Kong phone number form field: the validation and normalisation that
 `HKPhoneNumberField.clean` performs on a submitted string.

 The anchored pattern `^(?:852-?)?(\d{4})[-\.]?(\d{4})$` is modelled by a
 datatype of the strings it accepts (`PhoneForm`), a printer (`Spell`) that
 gives the language of the pattern, and a recogniser (`ParseForm`) proved to
 be its exact inverse.
 */
module HKForms {

  datatype Option<T> = None | Some(value: T)

  /** Outcome of cleaning: the normalised number or one of the three error kinds. */
  datatype Outcome = Ok(value: string) | Invalid | Disguise | Prefix

  /** A raw field value: an empty marker (None, [], (), {}) or text. */
  datatype RawInput = Absent | Text(text: string)

  /** Reserved three-digit starts of a number ("disguised" service numbers). */
  const SpecialNumbers: seq<string> := ["999", "992", "112"]

  /** Allowed one-digit starts of a number. */
  const PhonePrefixes: seq<string> := ["2", "3", "5", "6", "8", "9"]

  // ---------------------------------------------------------------------------
  // Characters

  predicate IsDigit(c: char) {
    '0' <= c <= '9'
  }

  /** ASCII whitespace: space, tab, line feed, carriage return, form feed, vertical tab. */
  predicate IsSpace(c: char) {
    c == ' ' || c == '\t' || c == '\n' || c == '\r' || c == '\U{C}' || c == '\U{B}'
  }

  /** The characters removed before matching: parentheses, whitespace and `+`. */
  predicate IsDecoration(c: char) {
    c == '(' || c == ')' || c == '+' || IsSpace(c)
  }

  predicate NoDecoration(s: string) {
    forall i :: 0 <= i < |s| ==> !IsDecoration(s[i])
  }

  predicate IsDigits4(s: string) {
    |s| == 4 && forall i :: 0 <= i < 4 ==> IsDigit(s[i])
  }

  // ---------------------------------------------------------------------------
  // Stripping decorations

  /** Removes every parenthesis, whitespace character and plus sign, keeping
      the remaining characters in order. */
  function Strip(s: string): (r: string)
    ensures |r| <= |s|
    ensures NoDecoration(r)
  {
    if s == [] then []
    else if IsDecoration(s[0]) then Strip(s[1..])
    else [s[0]] + Strip(s[1..])
  }

  /** A single decoration is removed; any other character is kept. */
  lemma StripSingle(c: char)
    ensures IsDecoration(c) ==> Strip([c]) == []
    ensures !IsDecoration(c) ==> Strip([c]) == [c]
  {
    assert [c][1..] == [];
  }

  lemma {:induction false} StripAppend(x: string, y: string)
    ensures Strip(x + y) == Strip(x) + Strip(y)
  {
    if x == [] {
      assert x + y == y;
    } else {
      assert (x + y)[1..] == x[1..] + y;
      StripAppend(x[1..], y);
    }
  }

  lemma {:induction false} StripKeepsUndecorated(s: string)
    requires NoDecoration(s)
    ensures Strip(s) == s
  {
    if s != [] {
      StripKeepsUndecorated(s[1..]);
    }
  }

  // ---------------------------------------------------------------------------
  // The accepted language: [852[-]] DDDD [-|.] DDDD

  datatype CountryCode = NoCode | Code | CodeHyphen
  datatype Separator = NoSep | Hyphen | Dot
  datatype PhoneForm = PhoneForm(code: CountryCode, first: string, sep: Separator, second: string)

  function CodeText(c: CountryCode): string {
    match c
    case NoCode => ""
    case Code => "852"
    case CodeHyphen => "852-"
  }

  function SepText(s: Separator): string {
    match s
    case NoSep => ""
    case Hyphen => "-"
    case Dot => "."
  }

  predicate WellFormed(f: PhoneForm) {
    IsDigits4(f.first) && IsDigits4(f.second)
  }

  /** The string a form stands for; the strings the anchored pattern matches
      are exactly the spellings of well-formed forms. */
  function Spell(f: PhoneForm): string {
    CodeText(f.code) + f.first + SepText(f.sep) + f.second
  }

  /** Recognises a number without country code: DDDD, an optional `-` or `.`, DDDD. */
  function ParseLocal(code: CountryCode, t: string): (r: Option<PhoneForm>)
    ensures r.Some? ==> WellFormed(r.value) && r.value.code == code
                        && CodeText(code) + t == Spell(r.value)
  {
    if |t| == 8 && IsDigits4(t[..4]) && IsDigits4(t[4..]) then
      assert t == t[..4] + t[4..];
      Some(PhoneForm(code, t[..4], NoSep, t[4..]))
    else if |t| == 9 && IsDigits4(t[..4]) && IsDigits4(t[5..]) && (t[4] == '-' || t[4] == '.') then
      var sep := if t[4] == '-' then Hyphen else Dot;
      assert t == t[..4] + SepText(sep) + t[5..];
      Some(PhoneForm(code, t[..4], sep, t[5..]))
    else
      None
  }

  /** The regex match. A local number is 8 or 9 characters long, one with the
      `852` code 11 to 13, so the length decides which reading applies; after
      `852` a `-` can only be the optional hyphen, since a group starts with a
      digit. */
  function ParseForm(s: string): (r: Option<PhoneForm>)
    ensures r.Some? ==> WellFormed(r.value) && Spell(r.value) == s
  {
    if |s| <= 9 then
      ParseLocal(NoCode, s)
    else if s[..3] == "852" then
      if s[3] == '-' then
        assert s == "852-" + s[4..];
        ParseLocal(CodeHyphen, s[4..])
      else
        assert s == "852" + s[3..];
        ParseLocal(Code, s[3..])
    else
      None
  }

  /** Every well-formed form is recognised, and read back as itself. */
  lemma ParseSpell(f: PhoneForm)
    requires WellFormed(f)
    ensures ParseForm(Spell(f)) == Some(f)
  {
    var a, b := f.first, f.second;
    var local := a + SepText(f.sep) + b;
    assert local[..4] == a;
    match f.sep {
      case NoSep =>
        assert local[4..] == b;
      case Hyphen =>
        assert local[4] == '-' && local[5..] == b;
      case Dot =>
        assert local[4] == '.' && local[5..] == b;
    }
    assert ParseLocal(f.code, local) == Some(f);
    var s := Spell(f);
    assert s == CodeText(f.code) + local;
    match f.code {
      case NoCode =>
        assert s == local;
      case Code =>
        assert s[..3] == "852" && s[3] == a[0] && s[3..] == local;
      case CodeHyphen =>
        assert s[..3] == "852" && s[3] == '-' && s[4..] == local;
    }
  }

  /** The recogniser rejects a string exactly when no well-formed form spells it. */
  lemma ParseNoneIffUnspelled(s: string)
    ensures ParseForm(s) == None <==> forall f :: WellFormed(f) ==> Spell(f) != s
  {
    if ParseForm(s) == None {
      forall f | WellFormed(f) ensures Spell(f) != s {
        ParseSpell(f);
      }
    }
  }

  // ---------------------------------------------------------------------------
  // Prefix checks

  /** One of the reserved numbers `999`, `992`, `112`. */
  predicate IsSpecialNumber(p: string) {
    p == "999" || p == "992" || p == "112"
  }

  /** One of the allowed leading digits `2`, `3`, `5`, `6`, `8`, `9`. */
  predicate IsAllowedLead(c: char) {
    c == '2' || c == '3' || c == '5' || c == '6' || c == '8' || c == '9'
  }

  /** Whether `v` starts with one of `prefixes`, searched in order. */
  function StartsWithAny(v: string, prefixes: seq<string>): (r: bool)
    ensures r <==> exists i :: 0 <= i < |prefixes| && prefixes[i] <= v
  {
    if prefixes == [] then false
    else if prefixes[0] <= v then true
    else StartsWithAny(v, prefixes[1..])
  }

  /** The rebuilt value `DDDD-DDDD`. */
  function Rebuild(f: PhoneForm): string {
    f.first + "-" + f.second
  }

  predicate IsNormalized(v: string) {
    |v| == 9 && v[4] == '-' && forall i :: 0 <= i < 9 && i != 4 ==> IsDigit(v[i])
  }

  /** A number the field accepts: `DDDD-DDDD`, an allowed first digit and no
      reserved start. */
  predicate IsAcceptedNumber(v: string) {
    IsNormalized(v) && IsAllowedLead(v[0]) && !IsSpecialNumber(v[..3])
  }

  lemma RebuildNormalized(f: PhoneForm)
    requires WellFormed(f)
    ensures IsNormalized(Rebuild(f))
  {
    var v := Rebuild(f);
    forall i | 0 <= i < 9 && i != 4 ensures IsDigit(v[i]) {
      if i < 4 {
        assert v[i] == f.first[i];
      } else {
        assert v[i] == f.second[i - 5];
      }
    }
  }

  /** The checks made on the rebuilt value: reserved numbers first, then the
      allowed leading digit. */
  function Classify(v: string): (r: Outcome)
    requires |v| >= 3
    ensures r == Disguise <==> IsSpecialNumber(v[..3])
    ensures r == Prefix <==> !IsSpecialNumber(v[..3]) && !IsAllowedLead(v[0])
    ensures r == Ok(v) <==> !IsSpecialNumber(v[..3]) && IsAllowedLead(v[0])
  {
    assert StartsWithAny(v, SpecialNumbers) <==> IsSpecialNumber(v[..3]) by {
      assert SpecialNumbers[0] == "999" && SpecialNumbers[1] == "992" && SpecialNumbers[2] == "112";
      assert forall p :: |p| == 3 ==> (p <= v <==> p == v[..3]);
    }
    assert StartsWithAny(v, PhonePrefixes) <==> IsAllowedLead(v[0]) by {
      assert PhonePrefixes[0] == "2" && PhonePrefixes[1] == "3" && PhonePrefixes[2] == "5";
      assert PhonePrefixes[3] == "6" && PhonePrefixes[4] == "8" && PhonePrefixes[5] == "9";
      assert forall p :: |p| == 1 ==> (p <= v <==> p[0] == v[0]);
    }
    if StartsWithAny(v, SpecialNumbers) then
      Disguise
    else if !StartsWithAny(v, PhonePrefixes) then
      Prefix
    else
      Ok(v)
  }

  // ---------------------------------------------------------------------------
  // Clean

  /** Matches a stripped string, rebuilds it and checks the rebuilt value. */
  function Validate(t: string): (r: Outcome)
    ensures r.Ok? ==> IsAcceptedNumber(r.value)
  {
    match ParseForm(t)
    case None => Invalid
    case Some(f) =>
      RebuildNormalized(f);
      Classify(Rebuild(f))
  }

  /** Validates and normalises a phone number string (one that is not an
      empty value). */
  function Clean(s: string): (r: Outcome)
    ensures r.Ok? ==> IsAcceptedNumber(r.value)
  {
    Validate(Strip(s))
  }

  /** After stripping, an input is invalid exactly when it is not the spelling
      of any well-formed form `[852[-]]DDDD[-|.]DDDD`. */
  lemma InvalidIffUnspelled(s: string)
    ensures Clean(s) == Invalid <==> forall f :: WellFormed(f) ==> Spell(f) != Strip(s)
  {
    ParseNoneIffUnspelled(Strip(s));
  }

  /** The framework's empty values: an absent value or the empty string. */
  predicate IsEmptyValue(raw: RawInput) {
    raw.Absent? || |raw.text| == 0
  }

  /** The whole field: an empty value short-circuits to the caller's empty
      value, anything else is cleaned. The empty test sees the raw value,
      before stripping, so text made only of decorations is not empty and
      fails as invalid. */
  function CleanField(raw: RawInput, emptyValue: string): (r: Outcome)
    ensures IsEmptyValue(raw) ==> r == Ok(emptyValue)
    ensures !IsEmptyValue(raw) && r.Ok? ==> IsAcceptedNumber(r.value)
    ensures !IsEmptyValue(raw) && |Strip(raw.text)| == 0 ==> r == Invalid
  {
    if IsEmptyValue(raw) then Ok(emptyValue) else Clean(raw.text)
  }

  // ---------------------------------------------------------------------------
  // Properties

  /** For any input the pattern matches, the outcome is decided by the first
      group alone, in the order disguise, prefix, success; success returns
      the two groups joined by `-`. */
  lemma CleanRecognised(f: PhoneForm)
    requires WellFormed(f)
    ensures Clean(Spell(f)) == Disguise <==> IsSpecialNumber(f.first[..3])
    ensures Clean(Spell(f)) == Prefix <==> !IsSpecialNumber(f.first[..3]) && !IsAllowedLead(f.first[0])
    ensures Clean(Spell(f)) == Ok(f.first + "-" + f.second) <==> !IsSpecialNumber(f.first[..3]) && IsAllowedLead(f.first[0])
  {
    SpellingOutcome(f);
    var v := Rebuild(f);
    assert v[..3] == f.first[..3] && v[0] == f.first[0];
  }

  /** Parentheses, plus signs and whitespace can be inserted anywhere without
      changing the outcome. */
  lemma DecorationIrrelevant(x: string, c: char, y: string)
    requires IsDecoration(c)
    ensures Clean(x + [c] + y) == Clean(x + y)
  {
    StripSingle(c);
    StripAppend(x, [c]);
    assert Strip(x + [c]) == Strip(x);
    StripAppend(x + [c], y);
    StripAppend(x, y);
    assert Strip(x + [c] + y) == Strip(x + y);
  }

  /** Cleaning sees only the stripped string. */
  lemma CleanStripped(s: string)
    ensures Clean(Strip(s)) == Clean(s)
  {
    StripKeepsUndecorated(Strip(s));
  }

  /** The outcome for any spelling of a form is the outcome for `DDDD-DDDD`. */
  lemma SpellingOutcome(f: PhoneForm)
    requires WellFormed(f)
    ensures Clean(Spell(f)) == Classify(f.first + "-" + f.second)
  {
    assert NoDecoration(Spell(f)) by {
      var s := Spell(f);
      forall i | 0 <= i < |s| ensures !IsDecoration(s[i]) {
        assert s[i] in CodeText(f.code) || s[i] in f.first || s[i] in SepText(f.sep) || s[i] in f.second;
      }
    }
    StripKeepsUndecorated(Spell(f));
    ParseSpell(f);
  }

  /** The `852` code, with or without its hyphen, is discarded: a number
      written with it has the outcome of the number written without it. */
  lemma CountryCodeDiscarded(code: CountryCode, a: string, sep: Separator, b: string)
    requires IsDigits4(a) && IsDigits4(b)
    ensures Clean(CodeText(code) + a + SepText(sep) + b) == Clean(a + SepText(sep) + b)
  {
    var written, local := PhoneForm(code, a, sep, b), PhoneForm(NoCode, a, sep, b);
    assert "" + a == a;
    assert Spell(local) == a + SepText(sep) + b;
    SpellingOutcome(written);
    SpellingOutcome(local);
  }

  /** The separator between the groups is irrelevant: `DDDDDDDD`, `DDDD-DDDD`
      and `DDDD.DDDD` have the same outcome. */
  lemma SeparatorIrrelevant(a: string, sep: Separator, b: string)
    requires IsDigits4(a) && IsDigits4(b)
    ensures Clean(a + SepText(sep) + b) == Clean(a + "-" + b)
  {
    var written, hyphen := PhoneForm(NoCode, a, sep, b), PhoneForm(NoCode, a, Hyphen, b);
    assert "" + a == a;
    assert Spell(written) == a + SepText(sep) + b;
    assert Spell(hyphen) == a + "-" + b;
    SpellingOutcome(written);
    SpellingOutcome(hyphen);
  }

  /** A successful result is accepted again, unchanged. */
  lemma CleanIdempotent(s: string, v: string)
    requires Clean(s) == Ok(v)
    ensures Clean(v) == Ok(v)
  {
    var f := PhoneForm(NoCode, v[..4], Hyphen, v[5..]);
    assert v == "" + v[..4] + "-" + v[5..];
    assert Spell(f) == v && Rebuild(f) == v;
    SpellingOutcome(f);
  }

  /** Count of ASCII digits in a string. */
  function DigitCount(s: string): (n: nat)
    ensures n <= |s|
  {
    if s == [] then 0 else (if IsDigit(s[0]) then 1 else 0) + DigitCount(s[1..])
  }

  lemma {:induction false} DigitCountAppend(x: string, y: string)
    ensures DigitCount(x + y) == DigitCount(x) + DigitCount(y)
  {
    if x == [] {
      assert x + y == y;
    } else {
      assert (x + y)[1..] == x[1..] + y;
      DigitCountAppend(x[1..], y);
    }
  }

  lemma {:induction false} DigitCountOfDigits(s: string)
    requires forall i :: 0 <= i < |s| ==> IsDigit(s[i])
    ensures DigitCount(s) == |s|
  {
    if s != [] {
      DigitCountOfDigits(s[1..]);
    }
  }

  /** The spelling of a form holds only digits, `-` and `.`, and exactly
      8 digits besides those of the country code. */
  lemma SpellShape(f: PhoneForm)
    requires WellFormed(f)
    ensures forall i :: 0 <= i < |Spell(f)| ==> IsDigit(Spell(f)[i]) || Spell(f)[i] == '-' || Spell(f)[i] == '.'
    ensures DigitCount(Spell(f)) == if f.code == NoCode then 8 else 11
  {
    var code := CodeText(f.code);
    DigitCountAppend(code + f.first + SepText(f.sep), f.second);
    DigitCountAppend(code + f.first, SepText(f.sep));
    DigitCountAppend(code, f.first);
    DigitCountOfDigits(f.first);
    DigitCountOfDigits(f.second);
    DigitCountOfDigits("852");
    if f.code == CodeHyphen {
      DigitCountAppend("852", "-");
      assert "852" + "-" == code;
    }
    assert DigitCount(SepText(f.sep)) == 0;
  }

  /** A stripped input holding a letter or any character other than a digit,
      `-` or `.`, or other than 8 digits besides a leading `852`, is invalid. */
  lemma InvalidShapes(s: string)
    requires Clean(s) != Invalid
    ensures forall i :: 0 <= i < |Strip(s)| ==> IsDigit(Strip(s)[i]) || Strip(s)[i] == '-' || Strip(s)[i] == '.'
    ensures DigitCount(Strip(s)) == 8 || (DigitCount(Strip(s)) == 11 && "852" <= Strip(s))
  {
    var t := Strip(s);
    var f := ParseForm(t).value;
    assert Spell(f) == t;
    SpellShape(f);
  }

  /** On the field, a decoration is irrelevant as long as the text stays
      non-empty; a lone decoration is not an empty value and is invalid,
      while the empty string returns the empty value. */
  lemma FieldDecorationIrrelevant(x: string, c: char, y: string, emptyValue: string)
    requires IsDecoration(c) && |x + y| > 0
    ensures CleanField(Text(x + [c] + y), emptyValue) == CleanField(Text(x + y), emptyValue)
  {
    DecorationIrrelevant(x, c, y);
  }

  lemma EmptyBoundary(c: char, emptyValue: string)
    requires IsDecoration(c)
    ensures CleanField(Text([]), emptyValue) == Ok(emptyValue)
    ensures CleanField(Text([c]), emptyValue) == Invalid
  {
    StripSingle(c);
  }

  // ---------------------------------------------------------------------------
  // Documented examples (the groups are passed as parameters where a long
  // string literal would make the verifier evaluate `Clean` on it eagerly)

  lemma ExampleHyphenated()
    ensures Clean("2345-6789") == Ok("2345-6789")
  {
    var f := PhoneForm(NoCode, "2345", Hyphen, "6789");
    assert Spell(f) == "2345-6789";
    assert "2345"[..3] == "234";
    CleanRecognised(f);
  }

  lemma ExampleCountryCode(first: string, second: string)
    requires first == "2345" && second == "6789"
    ensures Clean("852-" + first + "-" + second) == Ok(first + "-" + second)
  {
    var f := PhoneForm(CodeHyphen, first, Hyphen, second);
    assert Spell(f) == "852-" + first + "-" + second;
    assert first[..3] == "234";
    CleanRecognised(f);
  }

  lemma ExampleReserved()
    ensures Clean("99956789") == Disguise
  {
    var f := PhoneForm(NoCode, "9995", NoSep, "6789");
    assert Spell(f) == "99956789";
    assert "9995"[..3] == "999";
    CleanRecognised(f);
  }

  lemma ExampleBadLead()
    ensures Clean("0123-4567") == Prefix
  {
    var f := PhoneForm(NoCode, "0123", Hyphen, "4567");
    assert Spell(f) == "0123-4567";
    assert "0123"[..3] == "012";
    CleanRecognised(f);
  }

  lemma ExampleTooShort()
    ensures Clean("23456") == Invalid
  {
    StripKeepsUndecorated("23456");
  }
}
