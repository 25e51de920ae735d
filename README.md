# Hong Kong phone number field

A Dafny model of `HKPhoneNumberField.clean` from django-localflavor's Hong Kong
form helpers. The field takes a phone number typed by a user, removes
parentheses, plus signs and whitespace, matches what is left against the
pattern `^(?:852-?)?(\d{4})[-\.]?(\d{4})$`, rebuilds it as `DDDD-DDDD` (the
`852` country code is dropped), and then rejects numbers that start with one of
the reserved sequences `999`, `992`, `112` (error `disguise`) or whose first
digit is not one of `2, 3, 5, 6, 8, 9` (error `prefix`). A string that does not
match is error `invalid`. The checks run in that order: `invalid`, `disguise`,
`prefix`.

Everything is in `hk_forms.dfy`, module `HKForms`, written as pure functions
and lemmas, since `clean` is a straight chain of expressions:

- `Strip` removes the decorative characters (the `re.sub` call).
- The regular expression becomes a datatype `PhoneForm` (country code: none,
  `852` or `852-`; first group; separator: none, `-` or `.`; second group).
  `Spell` gives the string a form stands for, so the spellings of well-formed
  forms are exactly the strings the pattern matches. `ParseForm` is the
  recogniser. It is proved to be the exact inverse of `Spell` (`ParseSpell`,
  `ParseNoneIffUnspelled`).
- `StartsWithAny` is the search over the constant tuples. `Classify` applies
  the two prefix checks to the rebuilt value. `Validate` chains match, rebuild
  and classify. `Clean` is `Validate` after `Strip`.
- `CleanField` adds the empty-value shortcut. `RawInput.Absent` stands for the
  empty markers other than `""` (None, empty list, tuple or dict). The caller
  supplies the value returned for them.
- Outcomes are a datatype `Outcome = Ok(value) | Invalid | Disguise | Prefix`.
  These replace the raised `ValidationError`s and their message texts.

Together, `CleanStripped` (stripping first changes nothing),
`InvalidIffUnspelled` and `CleanRecognised` fix the outcome of every input that
is not an empty value. The empty test comes before stripping (lines 56-59), so
a value made only of decorations, such as `" "`, is not empty: it strips to
nothing and is `invalid`, while `""` returns the empty value (`EmptyBoundary`).

Modelling assumption: a digit is an ASCII `'0'..'9'`. Whitespace is space,
tab, line feed, carriage return, form feed and vertical tab.

## Model

| member | source | states |
|---|---|---|
| `HKForms.Strip` | localflavor/hk/forms.py:59 | the stripped string contains no parenthesis, plus sign or whitespace, and is no longer than the input |
| `HKForms.StripSingle` | localflavor/hk/forms.py:59 | a single decoration character strips to nothing; any other character is kept |
| `HKForms.StripAppend` | localflavor/hk/forms.py:59 | stripping works character by character: stripping a concatenation is concatenating the stripped parts |
| `HKForms.StripKeepsUndecorated` | localflavor/hk/forms.py:59 | a string without decorative characters is left unchanged by stripping |
| `HKForms.ParseLocal` | localflavor/hk/forms.py:12 | a recognised local number `DDDD[-.]DDDD` is well-formed, and its form spells the given code followed by the input |
| `HKForms.ParseForm` | localflavor/hk/forms.py:12 | whatever the anchored pattern reading accepts is a well-formed form whose spelling is exactly the input |
| `HKForms.ParseSpell` | localflavor/hk/forms.py:12 | every `[852[-]]DDDD[-.]DDDD` string is matched, and the match yields back the code, both groups and the separator it was written with |
| `HKForms.ParseNoneIffUnspelled` | localflavor/hk/forms.py:12 | the match fails exactly when no well-formed form spells the string |
| `HKForms.RebuildNormalized` | localflavor/hk/forms.py:64 | `Rebuild`, joining two 4-digit groups with `-`, gives a 9-character value with `-` at index 4 and digits elsewhere |
| `HKForms.StartsWithAny` | localflavor/hk/forms.py:65-70 | the search succeeds exactly when some entry of the tuple is a prefix of the value |
| `HKForms.Classify` | localflavor/hk/forms.py:13-14 | on a rebuilt value: `disguise` exactly when it starts with 999, 992 or 112; `prefix` exactly when it does not and its first digit is outside {2,3,5,6,8,9}; otherwise success with the value itself (lines 65-73) |
| `HKForms.Validate` | localflavor/hk/forms.py:60-73 | a successful result is `DDDD-DDDD` with ASCII digits, an allowed first digit and no reserved start |
| `HKForms.Clean` | localflavor/hk/forms.py:59-73 | on success the output has length 9, `-` at index 4, ASCII digits elsewhere, a first digit in {2,3,5,6,8,9} and no 999/992/112 start (the documented output format and note, lines 26-29) |
| `HKForms.CleanField` | localflavor/hk/forms.py:56-73 | an empty value (absent or `""`) returns the caller's empty value with no check; for any other value a success is an accepted `DDDD-DDDD` number, and a non-empty text that strips to nothing is `invalid` |
| `HKForms.FieldDecorationIrrelevant` | localflavor/hk/forms.py:56-59 | on the field, inserting a decoration into text that is non-empty without it does not change the outcome |
| `HKForms.EmptyBoundary` | localflavor/hk/forms.py:56-62 | `""` returns the empty value, but a lone decoration character is not empty and is `invalid` |
| `HKForms.InvalidIffUnspelled` | localflavor/hk/forms.py:60-62 | the outcome is `invalid` exactly when the stripped input is not `[852[-]]DDDD[-.]DDDD` |
| `HKForms.CleanRecognised` | localflavor/hk/forms.py:64-73 | for any string the pattern matches, `disguise` iff the first group starts with 999/992/112 (even though 9 is an allowed digit); `prefix` iff no reserved start and the first digit is outside {2,3,5,6,8,9}; success with `first-second` iff neither |
| `HKForms.DecorationIrrelevant` | localflavor/hk/forms.py:59 | for a value that is not empty, inserting or removing `(`, `)`, `+` or a whitespace character anywhere does not change the outcome of `Clean` |
| `HKForms.CleanStripped` | localflavor/hk/forms.py:59-60 | cleaning an already stripped input gives the same outcome as cleaning the original |
| `HKForms.SpellingOutcome` | localflavor/hk/forms.py:64 | every spelling of a form has the outcome of its rebuilt `DDDD-DDDD` value |
| `HKForms.CountryCodeDiscarded` | localflavor/hk/forms.py:12 | a number written after `852` or `852-` has the same outcome as the number alone |
| `HKForms.SeparatorIrrelevant` | localflavor/hk/forms.py:64 | `DDDDDDDD` and `DDDD.DDDD` have the same outcome as `DDDD-DDDD` |
| `HKForms.CleanIdempotent` | localflavor/hk/forms.py:64-73 | cleaning a successful output again succeeds with that same output |
| `HKForms.SpellShape` | localflavor/hk/forms.py:12 | a matching string holds only digits, `-` and `.`, with 8 digits, or 11 when the country code is written |
| `HKForms.InvalidShapes` | localflavor/hk/forms.py:60-62 | an input whose stripped form holds any other character (a letter, say), or other than 8 digits beyond a leading `852`, is `invalid` |
| `HKForms.ExampleHyphenated` | localflavor/hk/forms.py:23-26 | `2345-6789` cleans to `2345-6789` |
| `HKForms.ExampleCountryCode` | localflavor/hk/forms.py:23-26 | `852-2345-6789` cleans to `2345-6789` |
| `HKForms.ExampleReserved` | localflavor/hk/forms.py:28 | `99956789` is `disguise` |
| `HKForms.ExampleBadLead` | localflavor/hk/forms.py:29 | `0123-4567` is `prefix` |
| `HKForms.ExampleTooShort` | localflavor/hk/forms.py:60-62 | `23456` is `invalid` |

## Left out

- The `super().clean(value)` call on Django's `CharField` (line 54). Its required-field and length checks belong to the framework. Its result is discarded by the source.
- Which values count as empty comes from the framework's `empty_values`. The model takes the usual ones: `""` and an abstract `Absent` marker.
- `force_text` (line 59): the input is taken to be text already.
- Error message texts and their lazy translation (lines 15-16, 39-48): errors are datatype constructors.
- The deprecation mixin and `__init__` (lines 10, 19, 50-51): framework glue with no logic.
- Unicode digits and whitespace: Python 3's `\d` and `\s` also match non-ASCII digits and spaces (and ASCII 0x1C-0x1F for `\s`). The model accepts ASCII digits and the six ASCII whitespace characters listed above.
- The regular expression engine: the pattern is modelled by an explicit recogniser, proved equal to the language it describes. `$` may match before a final newline in Python, but no newline survives stripping, so this changes nothing.
- The documented `(+852) XXXX XXXX` input has no concrete example lemma, because the verifier runs out of resources evaluating `Clean` on it. `DecorationIrrelevant` and `CountryCodeDiscarded` cover that shape in general.
