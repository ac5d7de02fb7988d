# appium-adb helpers: activity names and the start command

This project models three pieces of logic in the helper layer of the appium-adb
Android driver. Each is stated in the terms the unit tests in
`test/unit/helper-specs.js` use:

- **Activity-name candidates.** `getPossibleActivityNames(pkg, activity)` lists
  spellings of an activity name to try against the device. In this model the
  list holds the name as given, then the relative `.x.Y` form when the name lies under the
  package, then the name with a dot in front when it has none. This is
  `ActivityNames.Candidates`.
- **Intent-argument tokenizer.** `buildStartCmd` takes a free-form
  `optionalIntentArguments` string, splits it on single spaces and regroups the
  words. In this model a flag word is `-` followed by exactly one letter, the shape
  of the `-d` and `-e` flags in the tests. A flag word opens a group. The word after
  the flag is the key. Any further words up to the next flag are joined back into
  one value token. A hyphen inside a URL never makes a word a flag. This is
  `Text.SplitOnSpace` followed by `IntentArgs.Tokenize`. `IntentArgs.Scan` is the
  same parser written as a single left-to-right pass.
- **Start command.** The command is the fixed `am start` part, then the intent
  tokens, then `-S` when `stopApp` is set. The fixed part depends on the options
  and the API level. It is a function parameter, so nothing about its contents is
  assumed. This is `StartCmd.BuildStartCmd`.

Modules: `Text` (`text.dfy`) holds splitting and joining on single spaces and
the prefix test. `ActivityNames` (`activity_names.dfy`), `IntentArgs`
(`intent_args.dfy`) and `StartCmd` (`start_cmd.dfy`) hold the three pieces.
`HelperExamples` (`helper_examples.dfy`) proves every `getPossibleActivityNames`
and `buildStartCmd` case of the unit tests from the general lemmas. All
start-command cases use component `com.something/.SomeActivity` at API level 20.

Key properties:
- Splitting is a round trip in both directions (`Text.SplitOnSpaceJoin`,
  `Text.SplitJoin`).
- Tokenizing loses, invents and reorders no text
  (`IntentArgs.TokenizeJoin`).
- The flags in the output are exactly the flags in the input, in the same order
  (`IntentArgs.FlagsPreserved`).
- Flag groups are independent of each other (`IntentArgs.TokenizeAppend`).
- The single-pass scanner computes the same tokens as the recursive definition
  (`IntentArgs.Scan`).
- Every candidate is either the name itself, the dotted name, or a relative name
  that the package expands back into the name (`ActivityNames.Candidates`). When
  the name does not start with the package and a dot, only the first two kinds
  occur (`ActivityNames.ExactPackageBoundary`).

## Model

| member | source | states |
|---|---|---|
| ActivityNames.Candidates | test/unit/helper-specs.js:13-30 | the list is never empty and starts with the activity exactly as given; every candidate is the name, the name with a dot in front, or a dot-prefixed relative name that the package expands back into the name |
| ActivityNames.StripsPackage | test/unit/helper-specs.js:14-17 | for every package `p` and remainder `r`, the candidates of `p.r` include the relative name `.r` |
| ActivityNames.PrefixesDot | test/unit/helper-specs.js:18-21 | every activity name without a leading dot has the dotted name among its candidates |
| ActivityNames.ExactPackageBoundary | test/unit/helper-specs.js:26-29 | when the name does not start with the package followed by a dot, every candidate is the name as given or the name with a dot in front, so a package that is only a character prefix of the name is never removed |
| HelperExamples.RemovesPackageExample | test/unit/helper-specs.js:14-17 | the candidates of `pkg.activity.name` in package `pkg` include `.activity.name` |
| HelperExamples.PrefixesDotExample | test/unit/helper-specs.js:18-21 | the candidates of `act.name` include `.act.name` |
| ActivityNames.KeepsDottedName | test/unit/helper-specs.js:22-25 | a name that already starts with a dot is among its candidates as given, and no candidate puts a second dot in front of it |
| HelperExamples.KeepsDottedNameExample | test/unit/helper-specs.js:22-25 | an already dotted name `.activity.name` stays among its own candidates, and `..activity.name` is not one of them |
| HelperExamples.OtherPackageExample | test/unit/helper-specs.js:26-29 | a fully qualified name under a different package stays among its candidates unchanged |
| HelperExamples.CharacterPrefixExample | test/unit/helper-specs.js:26-29 | for package `com.a` and activity `com.ab.Foo` the candidates are exactly the name and the dotted name; nothing is stripped |
| Text.SplitOnSpaceJoin | test/unit/helper-specs.js:91-96 | the words of a split contain no space, and joining them with single spaces gives back the original string |
| Text.SplitJoin | test/unit/helper-specs.js:113-130 | joining a non-empty list of space-free words and splitting again gives back the same list, so a URL stays one word |
| IntentArgs.LeadingValues | test/unit/helper-specs.js:97-112 | the run it measures has no flag in it and stops exactly at the next flag or at the end |
| IntentArgs.Group | test/unit/helper-specs.js:85-96 | a group's tokens, joined with single spaces, are the group's words joined, so regrouping loses no text |
| IntentArgs.TokenizeJoin | test/unit/helper-specs.js:91-96 | for every word list, the tokens joined with single spaces equal the words joined with single spaces |
| IntentArgs.FlagsPreserved | test/unit/helper-specs.js:97-130 | the flag words of the output are exactly the flag words of the input, in order; a hyphenated value never becomes a flag |
| IntentArgs.TokenizeAppend | test/unit/helper-specs.js:97-112 | cutting the words just before a flag tokenizes as the two halves concatenated, so groups keep source order and do not affect each other |
| IntentArgs.FlagKeyValues | test/unit/helper-specs.js:80-96 | a flag, a key and any further non-flag words give the flag, the key, then one value token for the remaining words joined with spaces, or no value token when none remain |
| IntentArgs.DanglingFlag | test/unit/helper-specs.js:97-103 | in a word list, a flag followed directly by another flag, or by nothing, is emitted alone with no value token after it (a modelling choice; the cited test has a key after every flag and does not cover this case) |
| IntentArgs.Scan | test/unit/helper-specs.js:80-130 | the single-pass scanner, which closes a group at each new flag, returns exactly the recursive tokenization |
| StartCmd.IntentTokens | test/unit/helper-specs.js:80-130 | the intent tokens joined with single spaces are the argument string; an empty string gives no tokens and only an empty string does |
| StartCmd.BuildStartCmd | test/unit/helper-specs.js:131-138 | the command starts with the fixed part; with `stopApp` it ends in `-S` and the tokens between join back to the argument string; without `stopApp` everything after the fixed part joins back to the argument string, and with no arguments the command is the fixed part alone |
| StartCmd.StopSwitchOnlyWhenAsked | test/unit/helper-specs.js:135-138 | without `stopApp`, `-S` appears in the command only if the fixed part or one of the argument words already contains it |
| HelperExamples.SingleKeyExample | test/unit/helper-specs.js:80-84 | `-d key` ends the command in `-d`, `key` |
| HelperExamples.KeyValueExample | test/unit/helper-specs.js:85-90 | `-d key value` ends the command in `-d`, `key`, `value` |
| HelperExamples.KeyValueWithSpacesExample | test/unit/helper-specs.js:91-96 | `-d key value value2` ends the command in `-d`, `key`, `value value2` |
| HelperExamples.MultipleKeysExample | test/unit/helper-specs.js:97-103 | `-d key1 -e key2` ends the command in `-d`, `key1`, `-e`, `key2` |
| HelperExamples.MultipleKeyValuesExample | test/unit/helper-specs.js:104-112 | `-d key1 value1 -e key2 value2` ends the command in its six words, each its own token |
| HelperExamples.HyphenatedValueExample | test/unit/helper-specs.js:113-118 | `-d` followed by a hyphenated URL ends the command in `-d` and the URL, unsplit |
| HelperExamples.HyphenatedArgumentsExample | test/unit/helper-specs.js:119-130 | two flag groups with hyphenated URLs end the command in `-d`, URL 1, `-e`, `key`, URL 2 |
| HelperExamples.StopAppExample | test/unit/helper-specs.js:131-134 | with `stopApp` set, the last token of the command is `-S` |
| HelperExamples.NoStopAppExample | test/unit/helper-specs.js:135-138 | without `stopApp` and with no arguments, the last token is not `-S` whenever the fixed part does not end in `-S` |

## Left out

- `lib/helpers.js` is not part of this model. The behaviour modelled is what the
  unit tests fix, and the gaps are filled by the choices listed below.
- `getDirectories` and `getAndroidPlatformAndPath` (test lines 32-72) are left
  out. `getDirectories` reads a directory and sorts the entries with a library
  sort. `getAndroidPlatformAndPath` reads `ANDROID_HOME`, probes paths, and picks
  the latest API from a list of platforms the tests do not show, so any
  selection rule would be invented.
- The contents of the fixed `am start` part are left out: the command name,
  `-W`, `-n pkg/activity`, action, category, flags, and any API-level gating. That
  part is the `amStart` parameter of `StartCmd.BuildStartCmd`, and the API level
  is passed through to it unchanged.
- StartCmd.BuildStartCmd: `-S` is placed after the intent tokens, at the very end.
  The tests only check that it is last when there are no intent arguments.
- HelperExamples.NoStopAppExample: the test asks that the last token is not `-S`.
  The model can only promise this when the fixed part does not itself end in
  `-S`, because that part is a parameter.
- StartCmd.StopSwitchOnlyWhenAsked: the promise that `-S` never appears without
  `stopApp` is conditional. It needs the fixed part and the argument words to be
  free of a literal `-S`.
- IntentArgs.Tokenize: non-flag words before the first flag are not covered by
  the tests. The model emits them as one joined token, which keeps the round trip
  exact for every string.
- IntentArgs.Tokenize: a flag with no key is emitted alone, as
  `IntentArgs.DanglingFlag` states.
- IntentArgs.Tokenize: empty words are kept. Splitting on single spaces gives an
  empty word for each extra, leading or trailing space, and the tokenizer treats
  it like any other word. So `-d key ` gives `-d`, `key` and an empty value token;
  `-d  key` gives `-d`, an empty key, then `key` as the value; and ` ` alone gives
  one token that is a single space. These tokens go into the command unchanged.
  The tests use only single spaces between non-empty words, so they do not fix
  this case. Keeping every word is what makes the join-back round trip exact.
- IntentArgs.IsFlag: a flag is exactly `-` followed by one letter. The tests show
  only `-d` and `-e`, so this shape is a modelling choice. A consequence is that
  the activity manager's longer switches, such as `--es`, are not flags: the
  words `--es key value` become the single token `--es key value`.
- ActivityNames.Candidates: the dotted form is produced for every name that does
  not start with a dot, including names that contain a dot elsewhere. The test
  at lines 18-21 requires this for `act.name`, so a rule limited to names with
  no dot at all would be too narrow.
- ActivityNames.Candidates: duplicates are kept. The tests check membership only.
  The model fixes the kinds of candidate, not their order after the first or how
  many times each occurs. No other spelling is produced, such as `pkg + activity`
  for a relative name. The tests neither require nor forbid one.
