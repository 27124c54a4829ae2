/**
 * The word-submission rules of WordScramble as pure functions: how a typed
 * answer is normalised, the five guards, the order in which they run, and the
 * outcome of one submission. `ContentView.AddNewWord` is proved to follow
 * `Validate`.
 */
module Rules {
  import opened Wrappers
  import opened Text

  /** The five guards, named after the rejection each one produces. */
  datatype Reason = AlreadyUsed | NotPossible | NotRecognized | TooShort | SameAsRoot

  /** What one submission does: nothing, a rejection for a reason, or acceptance of the normalised word. */
  datatype Outcome = Ignored | Rejected(reason: Reason) | Accepted(word: string)

  /** The order in which `addNewWord` consults the guards. */
  const Guards: seq<Reason> := [AlreadyUsed, NotPossible, NotRecognized, TooShort, SameAsRoot]

  /**
   * The answer the guards see: the typed text lowercased, then trimmed. It has
   * no upper-case letter, no whitespace at either end, and is no longer than
   * what was typed.
   */
  function Normalize(newWord: string): (answer: string)
    ensures IsLowercase(answer) && IsTrimmed(answer) && |answer| <= |newWord|
  {
    ContainedInLowercase(Lowercased(newWord), Trim(Lowercased(newWord)));
    Trim(Lowercased(newWord))
  }

  /**
   * Originality: the word is not among those already accepted, so adding it
   * to a list of accepted words without repeats keeps the list without repeats.
   */
  predicate IsOriginal(usedWords: seq<string>, word: string)
    ensures NoDuplicates(usedWords) && IsOriginal(usedWords, word) ==> NoDuplicates([word] + usedWords)
  {
    word !in usedWords
  }

  /**
   * Spellability: every letter of `word` can be drawn from `rootWord`, counting
   * repeats. Such a word is no longer than the root and uses only its letters.
   */
  predicate CanSpell(word: string, rootWord: string)
    ensures CanSpell(word, rootWord) ==> |word| <= |rootWord|
    ensures CanSpell(word, rootWord) ==> forall i :: 0 <= i < |word| ==> word[i] in rootWord
  {
    assert multiset(word) <= multiset(rootWord) ==> |multiset(word)| <= |multiset(rootWord)| by {
      if multiset(word) <= multiset(rootWord) {
        assert multiset(rootWord) == multiset(word) + (multiset(rootWord) - multiset(word));
      }
    }
    assert multiset(word) <= multiset(rootWord) ==> forall i :: 0 <= i < |word| ==> word[i] in rootWord by {
      if multiset(word) <= multiset(rootWord) {
        forall i | 0 <= i < |word| ensures word[i] in rootWord {
          assert word[i] in multiset(word);
        }
      }
    }
    multiset(word) <= multiset(rootWord)
  }

  /** Minimum length: strictly more than two characters. */
  predicate IsMoreThanTwoLetters(word: string) {
    |word| > 2
  }

  /**
   * Distinctness: a word as long as the root must not occur inside it. Since
   * containment between strings of one length is equality, the guard fails
   * exactly for the root word itself.
   */
  predicate IsDifferentFromRootWord(rootWord: string, word: string)
    ensures IsDifferentFromRootWord(rootWord, word) <==> word != rootWord
  {
    if |rootWord| == |word| then
      SameLengthContainsIsEquality(rootWord, word);
      !Contains(rootWord, word)
    else
      true
  }

  /** Whether `answer` gets past `guard`. */
  predicate Passes(guard: Reason, answer: string, rootWord: string, usedWords: seq<string>,
                   isRealWord: string -> bool)
  {
    match guard
    case AlreadyUsed => IsOriginal(usedWords, answer)
    case NotPossible => CanSpell(answer, rootWord)
    case NotRecognized => isRealWord(answer)
    case TooShort => IsMoreThanTwoLetters(answer)
    case SameAsRoot => IsDifferentFromRootWord(rootWord, answer)
  }

  /**
   * The outcome of submitting `newWord` against a round's root word and
   * accepted words. Only an empty answer is ignored; a rejection names a guard
   * the answer fails; an accepted word is the answer, new to the round,
   * spellable from the root, real, longer than two letters and not the root.
   */
  function Validate(newWord: string, rootWord: string, usedWords: seq<string>,
                    isRealWord: string -> bool): (outcome: Outcome)
    ensures outcome == Ignored <==> Normalize(newWord) == []
    ensures outcome.Rejected? ==> !Passes(outcome.reason, Normalize(newWord), rootWord, usedWords, isRealWord)
    ensures outcome.Accepted? ==>
      var word := outcome.word;
      && word == Normalize(newWord)
      && word !in usedWords && CanSpell(word, rootWord) && isRealWord(word)
      && |word| > 2 && word != rootWord
  {
    var answer := Normalize(newWord);
    if |answer| == 0 then Ignored
    else if !IsOriginal(usedWords, answer) then Rejected(AlreadyUsed)
    else if !CanSpell(answer, rootWord) then Rejected(NotPossible)
    else if !isRealWord(answer) then Rejected(NotRecognized)
    else if !IsMoreThanTwoLetters(answer) then Rejected(TooShort)
    else if !IsDifferentFromRootWord(rootWord, answer) then Rejected(SameAsRoot)
    else Accepted(answer)
  }

  /** The alert title `wordError` shows for each rejection. */
  function Title(reason: Reason): string {
    match reason
    case AlreadyUsed => "Word used already"
    case NotPossible => "Word not possible"
    case NotRecognized => "Word not recognised"
    case TooShort => "Word is less than 2 letters"
    case SameAsRoot => "Word is same as Root word"
  }

  /** The alert message `wordError` shows for each rejection; the one for an unspellable word names the root. */
  function Message(reason: Reason, rootWord: string): (message: string)
    ensures reason == NotPossible ==> Contains(message, rootWord)
  {
    var prefix := "You can't spell from the '";
    assert OccursAt(prefix + rootWord + "'!", rootWord, |prefix|);
    match reason
    case AlreadyUsed => "Be more original!"
    case NotPossible => prefix + rootWord + "'!"
    case NotRecognized => "You can't just make them up, you know!"
    case TooShort => "You can make it to more than two letters"
    case SameAsRoot => "Be more original!"
  }

  /** No word appears twice. */
  predicate NoDuplicates(words: seq<string>) {
    forall i, j :: 0 <= i < j < |words| ==> words[i] != words[j]
  }

  /** What every accepted word is: already normalised, real and longer than two letters. */
  predicate Admissible(word: string, isRealWord: string -> bool) {
    Normalize(word) == word && isRealWord(word) && |word| > 2
  }

  // ---------------------------------------------------------------------------
  // Normalisation
  // ---------------------------------------------------------------------------

  /** Normalising twice is normalising once. */
  lemma NormalizeIdempotent(newWord: string)
    ensures Normalize(Normalize(newWord)) == Normalize(newWord)
  {
    var answer := Normalize(newWord);
    LowercasedOfLowercase(answer);
    TrimOfTrimmed(answer);
  }

  /** A word of lower-case ASCII letters is its own normal form. */
  lemma NormalizeLowercaseLetters(word: string)
    requires forall k :: 0 <= k < |word| ==> 'a' <= word[k] <= 'z'
    ensures Normalize(word) == word
  {
  }

  /** A word of lower-case ASCII letters followed by a space normalises to the word. */
  lemma NormalizePaddedLetters(word: string)
    requires |word| > 0 && forall k :: 0 <= k < |word| ==> 'a' <= word[k] <= 'z'
    ensures Normalize(word + " ") == word
  {
    var padded := word + " ";
    LowercasedOfLowercase(padded);
    assert TrimLeading(padded) == padded;
    assert padded[..|padded| - 1] == word;
    NormalizeLowercaseLetters(word);
  }

  // ---------------------------------------------------------------------------
  // The guards
  // ---------------------------------------------------------------------------

  /**
   * A word that needs more copies of some letter than the root has cannot be
   * spelt from it, whatever its other letters.
   */
  lemma {:induction false} TooManyCopiesNotPossible(word: string, rootWord: string, letter: char)
    requires multiset(word)[letter] > multiset(rootWord)[letter]
    ensures !CanSpell(word, rootWord)
  {
  }

  /** A word can be spelt from any root that begins with it. */
  lemma PrefixCanSpell(word: string, rootWord: string)
    requires |word| <= |rootWord| && rootWord[..|word|] == word
    ensures CanSpell(word, rootWord)
  {
    assert rootWord == word + rootWord[|word|..];
    assert multiset(rootWord) == multiset(word) + multiset(rootWord[|word|..]);
  }

  /**
   * One step of the letter-removal loop: when the working copy `rest` is the
   * root minus the first `i` letters of `word`, taking letter `i` out of it
   * leaves the root minus the first `i + 1` letters, and those still fit in
   * the root.
   */
  lemma {:induction false} TakeLetter(word: string, rootWord: string, i: nat, rest: string, pos: nat)
    requires i < |word| && pos < |rest| && rest[pos] == word[i]
    requires multiset(word[..i]) <= multiset(rootWord)
    requires multiset(rest) == multiset(rootWord) - multiset(word[..i])
    ensures multiset(word[..i + 1]) <= multiset(rootWord)
    ensures multiset(RemoveAt(rest, pos)) == multiset(rootWord) - multiset(word[..i + 1])
  {
    assert word[..i + 1] == word[..i] + [word[i]];
    assert rest[pos] in multiset(rest);
  }

  /**
   * The loop's early exit: when letter `i` of `word` has no copy left in the
   * working copy, the word cannot be spelt from the root.
   */
  lemma {:induction false} MissingLetterNotPossible(word: string, rootWord: string, i: nat, rest: string)
    requires i < |word| && word[i] !in rest
    requires multiset(word[..i]) <= multiset(rootWord)
    requires multiset(rest) == multiset(rootWord) - multiset(word[..i])
    ensures !CanSpell(word, rootWord)
  {
    var letter := word[i];
    assert multiset(rest)[letter] == 0;
    assert multiset(rootWord)[letter] == multiset(word[..i])[letter];
    assert word == word[..i] + [letter] + word[i + 1..];
    assert multiset(word)[letter] > multiset(rootWord)[letter];
  }

  // ---------------------------------------------------------------------------
  // First failure wins
  // ---------------------------------------------------------------------------

  /** An empty answer is ignored, and only an empty answer is. */
  lemma IgnoredIffEmpty(newWord: string, rootWord: string, usedWords: seq<string>,
                        isRealWord: string -> bool)
    ensures Validate(newWord, rootWord, usedWords, isRealWord) == Ignored <==> Normalize(newWord) == []
  {
  }

  /**
   * A submission is rejected for the guard at position `k` exactly when the
   * answer is not empty, fails that guard, and passes every guard before it;
   * the guards after it are not consulted.
   */
  lemma RejectedIffFirstFailingGuard(newWord: string, rootWord: string, usedWords: seq<string>,
                                     isRealWord: string -> bool, k: nat)
    requires k < |Guards|
    ensures Validate(newWord, rootWord, usedWords, isRealWord) == Rejected(Guards[k])
        <==> (Normalize(newWord) != []
              && !Passes(Guards[k], Normalize(newWord), rootWord, usedWords, isRealWord)
              && forall j :: 0 <= j < k ==> Passes(Guards[j], Normalize(newWord), rootWord, usedWords, isRealWord))
  {
    var answer := Normalize(newWord);
    GuardsPassedBefore(answer, rootWord, usedWords, isRealWord, k);
  }

  /** Passing the first `k` guards, spelt out guard by guard. */
  lemma GuardsPassedBefore(answer: string, rootWord: string, usedWords: seq<string>,
                           isRealWord: string -> bool, k: nat)
    requires k < |Guards|
    ensures (forall j :: 0 <= j < k ==> Passes(Guards[j], answer, rootWord, usedWords, isRealWord))
        <==> (&& (k > 0 ==> IsOriginal(usedWords, answer))
              && (k > 1 ==> CanSpell(answer, rootWord))
              && (k > 2 ==> isRealWord(answer))
              && (k > 3 ==> IsMoreThanTwoLetters(answer)))
  {
    var before := forall j :: 0 <= j < k ==> Passes(Guards[j], answer, rootWord, usedWords, isRealWord);
    if k >= 1 {
      assert before ==> Passes(Guards[0], answer, rootWord, usedWords, isRealWord);
    }
    if k >= 2 {
      assert before ==> Passes(Guards[1], answer, rootWord, usedWords, isRealWord);
    }
    if k >= 3 {
      assert before ==> Passes(Guards[2], answer, rootWord, usedWords, isRealWord);
    }
    if k >= 4 {
      assert before ==> Passes(Guards[3], answer, rootWord, usedWords, isRealWord);
    }
  }

  /**
   * A submission is accepted exactly when its answer is not empty and passes
   * all five guards; the word accepted is the normalised answer.
   */
  lemma AcceptedIffAllGuardsPass(newWord: string, rootWord: string, usedWords: seq<string>,
                                 isRealWord: string -> bool)
    ensures Validate(newWord, rootWord, usedWords, isRealWord).Accepted?
        <==> (Normalize(newWord) != []
              && forall j :: 0 <= j < |Guards| ==> Passes(Guards[j], Normalize(newWord), rootWord, usedWords, isRealWord))
    ensures Validate(newWord, rootWord, usedWords, isRealWord).Accepted?
        ==> Validate(newWord, rootWord, usedWords, isRealWord).word == Normalize(newWord)
  {
    var answer := Normalize(newWord);
    if answer != [] && forall j :: 0 <= j < |Guards| ==> Passes(Guards[j], answer, rootWord, usedWords, isRealWord) {
      assert Passes(Guards[0], answer, rootWord, usedWords, isRealWord);
      assert Passes(Guards[1], answer, rootWord, usedWords, isRealWord);
      assert Passes(Guards[2], answer, rootWord, usedWords, isRealWord);
      assert Passes(Guards[3], answer, rootWord, usedWords, isRealWord);
      assert Passes(Guards[4], answer, rootWord, usedWords, isRealWord);
    }
  }

  /**
   * What an accepted word is: the normalised answer, new to the round,
   * spellable from the root, real, longer than two letters and not the root.
   */
  lemma AcceptedWordProperties(newWord: string, rootWord: string, usedWords: seq<string>,
                               isRealWord: string -> bool)
    requires Validate(newWord, rootWord, usedWords, isRealWord).Accepted?
    ensures var word := Validate(newWord, rootWord, usedWords, isRealWord).word;
      && word == Normalize(newWord)
      && Admissible(word, isRealWord)
      && word !in usedWords
      && CanSpell(word, rootWord)
      && word != rootWord
  {
    var word := Normalize(newWord);
    NormalizeIdempotent(newWord);
  }

  /** Prepending an accepted word keeps the accepted words free of duplicates. */
  lemma AcceptKeepsNoDuplicates(newWord: string, rootWord: string, usedWords: seq<string>,
                                isRealWord: string -> bool)
    requires NoDuplicates(usedWords)
    requires Validate(newWord, rootWord, usedWords, isRealWord).Accepted?
    ensures NoDuplicates([Validate(newWord, rootWord, usedWords, isRealWord).word] + usedWords)
  {
  }

  /** Different rejections carry different alert titles, so the title tells which guard failed. */
  lemma TitleIdentifiesGuard(a: Reason, b: Reason)
    ensures Title(a) == Title(b) <==> a == b
  {
  }

  // ---------------------------------------------------------------------------
  // Particular submissions
  // ---------------------------------------------------------------------------

  /** A submission whose answer was already accepted this round is rejected as used, whatever else holds of it. */
  lemma UsedWordRejected(newWord: string, rootWord: string, usedWords: seq<string>,
                         isRealWord: string -> bool)
    requires Normalize(newWord) != [] && Normalize(newWord) in usedWords
    ensures Validate(newWord, rootWord, usedWords, isRealWord) == Rejected(AlreadyUsed)
  {
  }

  /** A new answer that cannot be spelt from the root is rejected as not possible, whatever the dictionary says. */
  lemma UnspellableRejected(newWord: string, rootWord: string, usedWords: seq<string>,
                            isRealWord: string -> bool)
    requires Normalize(newWord) != [] && Normalize(newWord) !in usedWords
    requires !CanSpell(Normalize(newWord), rootWord)
    ensures Validate(newWord, rootWord, usedWords, isRealWord) == Rejected(NotPossible)
  {
  }

  /** Submitting the root word itself, when it is real and long enough, is rejected as the root. */
  lemma RootWordRejected(rootWord: string, isRealWord: string -> bool)
    requires Admissible(rootWord, isRealWord)
    ensures Validate(rootWord, rootWord, [], isRealWord) == Rejected(SameAsRoot)
  {
  }

  /** "pepper" against "apple": it needs three p's and two e's, and the root has two p's and one e. */
  lemma PepperFromApple(usedWords: seq<string>, isRealWord: string -> bool)
    requires "pepper" !in usedWords
    ensures Validate("pepper", "apple", usedWords, isRealWord) == Rejected(NotPossible)
  {
    assert Normalize("pepper") == "pepper" by {
      NormalizeLowercaseLetters("pepper");
    }
    assert !CanSpell("pepper", "apple") by {
      TooManyCopiesNotPossible("pepper", "apple", 'e');
    }
  }

  /** "silk" against "silkworm" passes the first two guards; the dictionary decides. */
  lemma SilkFromSilkworm(isRealWord: string -> bool)
    ensures Validate("silk", "silkworm", [], isRealWord)
         == if isRealWord("silk") then Accepted("silk") else Rejected(NotRecognized)
  {
    assert Normalize("silk") == "silk" by {
      NormalizeLowercaseLetters("silk");
    }
    PrefixCanSpell("silk", "silkworm");
    assert IsDifferentFromRootWord("silkworm", "silk");
  }

  /**
   * A root line with trailing whitespace is not its own answer: submitting it
   * yields the trimmed word, which the distinctness guard lets through.
   */
  lemma PaddedRootAccepted(word: string, isRealWord: string -> bool)
    requires |word| > 2 && forall k :: 0 <= k < |word| ==> 'a' <= word[k] <= 'z'
    requires isRealWord(word)
    ensures Validate(word + " ", word + " ", [], isRealWord) == Accepted(word)
  {
    var root := word + " ";
    NormalizePaddedLetters(word);
    assert root[..|word|] == word;
    PrefixCanSpell(word, root);
  }

  /** "ct" against "cat" is spellable but too short; the realness guard runs first. */
  lemma CtFromCat(isRealWord: string -> bool)
    ensures Validate("ct", "cat", [], isRealWord)
         == if isRealWord("ct") then Rejected(TooShort) else Rejected(NotRecognized)
  {
    assert Normalize("ct") == "ct" by {
      NormalizeLowercaseLetters("ct");
    }
    assert CanSpell("ct", "cat") by {
      assert multiset("cat") == multiset("ct") + multiset{'a'};
    }
    assert IsOriginal([], "ct") && !IsMoreThanTwoLetters("ct");
  }

  /** Whitespace and capitals around a word do not matter: "  Silk\n" is submitted as "silk". */
  lemma PaddedCapitalisedWord()
    ensures Normalize("  Silk\n") == "silk"
  {
    var lower := Lowercased("  Silk\n");
    assert lower == "  silk\n" by {
      assert lower[2] == ToLower('S') == 's';
    }
    assert TrimLeading(lower) == "silk\n" by {
      assert lower[1..] == " silk\n" && lower[2..] == "silk\n";
    }
    assert TrimTrailing("silk\n") == "silk";
  }
}
