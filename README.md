# WordScramble: the word-submission rules, in Dafny

WordScramble is a one-screen word game. A round has a root word drawn from a
bundled word list. The player types candidate words. Each submission is
lowercased and trimmed, then checked by five guards in a fixed order:

1. originality: not already accepted this round;
2. possibility: spellable from the root word's letters, counting repeats;
3. realness: an English word according to the system spell checker;
4. length: more than two characters;
5. distinctness: not the root word itself.

The first guard that fails raises an alert with its own title and message, and
nothing else changes. A word that passes all five goes to the front of the
list of accepted words, and the text field is cleared. An empty answer is
ignored without an alert.

The project has four modules:

- `Wrappers` (`wrappers.dfy`): the `Option` type.
- `Text` (`text.dfy`): the string operations the game takes from the platform
  libraries: first index of a character, removal at a position, substring
  containment, ASCII lowercasing, trimming of whitespace and newlines, and
  splitting a text into lines, with the laws the rules depend on.
- `Rules` (`rules.dfy`): the rules as pure functions. `Normalize` gives the
  answer the guards see. There is one predicate per guard and `Passes`
  dispatches on a guard. `Guards` lists them in the order they run.
  `Validate` gives the outcome of one submission (`Ignored`,
  `Rejected(reason)` or `Accepted(word)`). `Title` and `Message` give the
  alert texts. The lemmas show that the first failing guard decides the
  rejection, what an accepted word satisfies, and how some example
  submissions turn out.
- `WordScramble` (`content_view.dfy`): the screen's state as the class
  `ContentView`, whose fields are the ones the view keeps (`usedWords`,
  `rootWord`, `newWord`, `errorTitle`, `errorMessage`, `showError`).
  `AddNewWord` runs the guards step by step and is proved to do what
  `Validate` says. `IsPossible` is the letter-removal loop, proved to decide
  multiset containment. `WordError` raises the alert. `StartGame` draws a
  root word. The object invariant `Valid()` says the accepted words are
  distinct and each one is normalised, real and longer than two letters.
  Every method keeps it.

The spell checker enters as a function `isRealWord: string -> bool`, fixed
when the view is built. The word list file's text and the random choice are
parameters of `StartGame`.

Some consequences of the code are easy to miss:

- Starting a new round changes only the root word. The accepted words are
  not cleared.
- For "ct" against the root "cat", the realness guard runs before the length
  guard. So a dictionary that does not know "ct" gives `NotRecognized`, not
  `TooShort` (`Rules.CtFromCat`).
- Submitting the root word gives `SameAsRoot` only when the root word is
  already in normal form, real and longer than two letters
  (`Rules.RootWordRejected`). Otherwise one of three things happens:
  - an earlier guard rejects it;
  - an empty root line makes the submission empty, so it is ignored
    (`Rules.IgnoredIffEmpty`);
  - a root line with whitespace around it, such as "silk " or a line ending
    in a carriage return, is trimmed to a shorter answer, which the
    length-gated distinctness guard lets through, so it can be accepted
    (`Rules.PaddedRootAccepted`).
- The fallback root word "silkworm" (`WordScramble.FallbackRootWord`) is
  never chosen. Splitting always yields at least one line (`Text.Split`), so
  `StartGame` always picks a line of the file. That line may be empty, for
  instance the one after a final newline.
- A missing or unreadable word list stops the app. The model reports it as
  `loaded == false` and leaves the state unchanged.

## Model

| member | source | states |
|---|---|---|
| `WordScramble.ContentView.constructor` | WordScramble/ContentView.swift:12-18 | a new view has no accepted words, empty root word, empty text and no alert, and satisfies the invariant |
| `WordScramble.ContentView.AddNewWord` | WordScramble/ContentView.swift:50-83 | an empty normalised answer changes nothing; a rejection keeps the accepted words and the typed text, and shows the failing guard's title and message; an acceptance prepends the normalised answer and clears the text, leaving the alert fields alone; the root word never changes; the no-duplicates and admissibility invariant is kept |
| `WordScramble.ContentView.IsPossible` | WordScramble/ContentView.swift:101-113 | the letter-removal loop returns true exactly when the word's multiset of characters is contained in the root word's; its invariant says the working copy is the root minus exactly the letters processed so far |
| `WordScramble.ContentView.WordError` | WordScramble/ContentView.swift:133-137 | sets the alert's title and message to the ones given and shows the alert, changing no other field |
| `WordScramble.ContentView.StartGame` | WordScramble/ContentView.swift:85-95 | with the list's text, the root word becomes the line of that text the random pick selects, so the fallback `WordScramble.FallbackRootWord` is never chosen; without it, nothing changes; the accepted words are untouched and the invariant is kept |
| `WordScramble.RandomElement` | WordScramble/ContentView.swift:89 | the random element is absent exactly for an empty list and otherwise is a member of the list |
| `Rules.Normalize` | WordScramble/ContentView.swift:51 | the answer the guards see has no upper-case letter, no whitespace or newline at either end, and is no longer than the typed text; `Rules.NormalizeIdempotent` shows that normalising twice is normalising once |
| `Rules.IsOriginal` | WordScramble/ContentView.swift:97-99 | a word that passes the originality guard can be added to a repeat-free list of accepted words and the list stays repeat-free; `Rules.UsedWordRejected` and `Rules.AcceptKeepsNoDuplicates` state what this guard guarantees for a submission |
| `Rules.CanSpell` | WordScramble/ContentView.swift:101-113 | a spellable word is no longer than the root and uses only letters of the root; `WordScramble.ContentView.IsPossible` proves the loop decides this relation and `Rules.TooManyCopiesNotPossible` shows repeats are counted |
| `Rules.IsMoreThanTwoLetters` | WordScramble/ContentView.swift:122-124 | the length guard needs more than two characters; `Rules.CtFromCat` shows a two-letter real word rejected by it |
| `Rules.IsDifferentFromRootWord` | WordScramble/ContentView.swift:126-131 | the distinctness guard (containment for equal lengths, pass otherwise) fails exactly for the root word itself |
| `Rules.Validate` | WordScramble/ContentView.swift:50-83 | only an empty answer is ignored; a rejection names a guard the answer fails; an accepted word is the normalised answer, new to the round, spellable from the root, real, longer than two letters and not the root; `Rules.RejectedIffFirstFailingGuard` and `Rules.AcceptedIffAllGuardsPass` give the exact order |
| `Rules.Title` | WordScramble/ContentView.swift:55-75 | the five alert titles of the source, one per guard; `Rules.TitleIdentifiesGuard` shows they are pairwise different |
| `Rules.Message` | WordScramble/ContentView.swift:55-75 | the five alert messages of the source; the one for an unspellable word contains the root word |
| `Rules.IgnoredIffEmpty` | WordScramble/ContentView.swift:51-52 | a submission is ignored exactly when its normalised answer is empty |
| `Rules.RejectedIffFirstFailingGuard` | WordScramble/ContentView.swift:54-77 | the submission is rejected for the guard at position k exactly when the answer is non-empty, fails that guard and passes every earlier one; later guards play no part |
| `Rules.AcceptedIffAllGuardsPass` | WordScramble/ContentView.swift:54-82 | a submission is accepted exactly when its answer is non-empty and passes all five guards, and the accepted word is the normalised answer |
| `Rules.AcceptedWordProperties` | WordScramble/ContentView.swift:54-82 | an accepted word is normalised, real, longer than two letters, new to the round, spellable from the root and different from it |
| `Rules.AcceptKeepsNoDuplicates` | WordScramble/ContentView.swift:54-81 | prepending an accepted word to a duplicate-free list of accepted words keeps it duplicate-free |
| `Rules.UsedWordRejected` | WordScramble/ContentView.swift:54-57 | any submission whose normalised answer is non-empty and already among the accepted words is rejected as already used, whatever the root and the dictionary |
| `Rules.UnspellableRejected` | WordScramble/ContentView.swift:59-62 | a new answer that cannot be spelt from the root is rejected as not possible, whatever the dictionary says |
| `Rules.RootWordRejected` | WordScramble/ContentView.swift:74-77 | a real root word of more than two letters, in normal form, submitted against itself is rejected as the root |
| `Rules.TooManyCopiesNotPossible` | WordScramble/ContentView.swift:104-109 | a word needing more copies of some letter than the root has cannot be spelt from it |
| `Rules.TakeLetter` | WordScramble/ContentView.swift:105-106 | removing the matching letter from the working copy keeps the loop invariant: the copy is the root minus exactly the letters processed, and those fit in the root |
| `Rules.MissingLetterNotPossible` | WordScramble/ContentView.swift:107-108 | when the next letter has no copy left in the working copy, the word cannot be spelt from the root, so the early false is correct |
| `Rules.PepperFromApple` | WordScramble/ContentView.swift:101-113 | "pepper" against "apple" is rejected as not possible, for any dictionary |
| `Rules.SilkFromSilkworm` | WordScramble/ContentView.swift:54-82 | "silk" against "silkworm" is accepted when the dictionary knows it and otherwise rejected as not recognised |
| `Rules.CtFromCat` | WordScramble/ContentView.swift:64-72 | "ct" against "cat" is rejected as too short when the dictionary knows it, and as not recognised when it does not |
| `Rules.NormalizeIdempotent` | WordScramble/ContentView.swift:51 | lowercasing and trimming an answer that is already lowercased and trimmed changes nothing |
| `Rules.NormalizeLowercaseLetters` | WordScramble/ContentView.swift:51 | a word of lower-case letters is its own normal form |
| `Rules.NormalizePaddedLetters` | WordScramble/ContentView.swift:51 | a word of lower-case letters followed by a space normalises to the word |
| `Rules.PaddedRootAccepted` | WordScramble/ContentView.swift:51-82 | for a real word of three or more lower-case letters and a root line holding that word followed by a space, submitting the root line is accepted as the word, since the trimmed answer is shorter than the root and the distinctness guard does not compare it |
| `Rules.PaddedCapitalisedWord` | WordScramble/ContentView.swift:51 | "  Silk" followed by a newline is submitted as "silk" |
| `Rules.TitleIdentifiesGuard` | WordScramble/ContentView.swift:55-75 | the five alert titles are pairwise different, so the title tells which guard failed |
| `Text.FirstIndex` | WordScramble/ContentView.swift:105 | the index found holds the letter and no earlier position does; nothing is found exactly when the letter is absent |
| `Text.RemoveAt` | WordScramble/ContentView.swift:106 | removal shortens the string by one, keeps the characters before the position where they were and shifts those after it down by one, and takes exactly one copy of the removed character out of its multiset |
| `Text.Contains` | WordScramble/ContentView.swift:128 | a string contains only strings no longer than itself, and contains itself; `Text.SameLengthContainsIsEquality` settles the equal-length case |
| `Text.SameLengthContainsIsEquality` | WordScramble/ContentView.swift:128 | between strings of equal length, containment holds exactly when they are equal |
| `Text.Lowercased` | WordScramble/ContentView.swift:51 | lowercasing keeps the length, turns each capital A to Z into the same letter in lower case, and keeps every other character in place |
| `Text.ContainedInLowercase` | WordScramble/ContentView.swift:51 | a part of a string without upper-case letters has none either, so trimming after lowercasing keeps the answer lowercase |
| `Text.LowercasedOfLowercase` | WordScramble/ContentView.swift:51 | lowercasing a string without upper-case letters returns it unchanged |
| `Text.Trim` | WordScramble/ContentView.swift:51 | the trimmed text is a contiguous part of the input with no whitespace or newline at either end; `Text.TrimBounds` adds that only whitespace is dropped |
| `Text.TrimShape` | WordScramble/ContentView.swift:51 | dropping leading then trailing whitespace leaves a part of the input with no whitespace at either end |
| `Text.TrimLeadingBounds` | WordScramble/ContentView.swift:51 | dropping leading whitespace keeps a suffix, drops only whitespace, and leaves a non-whitespace first character |
| `Text.TrimTrailingBounds` | WordScramble/ContentView.swift:51 | dropping trailing whitespace keeps a prefix, drops only whitespace, and leaves a non-whitespace last character |
| `Text.TrimBounds` | WordScramble/ContentView.swift:51 | trimming keeps a contiguous part of the input, drops only whitespace around it, and leaves no whitespace at either end |
| `Text.TrimOfTrimmed` | WordScramble/ContentView.swift:51 | a string with no whitespace at either end is its own trim |
| `Text.TrimIdempotent` | WordScramble/ContentView.swift:51 | trimming twice is trimming once |
| `Text.Split` | WordScramble/ContentView.swift:88 | splitting the word list's text gives at least one line, and no line holds a newline |
| `Text.JoinSplit` | WordScramble/ContentView.swift:88 | joining the lines back with newlines gives the original text |
| `Text.SplitJoin` | WordScramble/ContentView.swift:88 | splitting newline-joined lines that hold no newline gives back those lines |

## Left out

- The view tree, the text field, the list, the alert presentation, the
  toolbar button and the animation of the insertion. These are presentation
  with no rules in them.
- The preview provider at the end of the file.
- The spell checker's internals. The realness guard consults the injected
  `isRealWord` function.
- Reading the word list from the app bundle. `StartGame` receives the file's
  text, or nothing when it cannot be found or read.
- The random choice. `StartGame` receives a number `pick`, and the line
  chosen is the one at `pick` modulo the number of lines. Uniformity is not
  modelled.
- The fatal error for a missing word list. It is modelled as a failed load
  that changes nothing.
- Text.Lowercased: lowercases only the ASCII letters A to Z, because full
  Unicode case mapping is library behaviour outside the rules.
- Text.Contains: compares characters exactly. Swift compares strings up to
  Unicode canonical equivalence over grapheme clusters.
- Rules.IsMoreThanTwoLetters: counts Unicode scalar values. Swift's `count`
  counts grapheme clusters. The two agree on words made of plain letters.
- WordScramble.ContentView.IsPossible: matches letters as Unicode scalar
  values. Swift iterates and compares `Character`s (grapheme clusters) up to
  canonical equivalence, so a precomposed "é" (U+00E9) in the word and "e"
  followed by U+0301 in the root match in Swift but not in the model. The two
  agree on text whose characters are single scalars, such as the word list.
- Text.FirstIndex and Text.RemoveAt: work on single Unicode scalar values,
  not on Swift `Character`s, for the same reason as `IsPossible`.
- Rules.IsOriginal: compares strings scalar by scalar. Swift's `contains` on
  the accepted words uses `String` equality, which is canonical equivalence,
  so two spellings of the same accented word count as one word in Swift and
  as two in the model.
- Text.Trim: uses a fixed list of whitespace and newline code points, not the
  full Unicode property tables.
