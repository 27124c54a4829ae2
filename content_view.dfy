/**
 * The game screen's state and the operations that change it: the round's root
 * word, the words accepted so far (most recent first), the text being typed
 * and the alert that reports a rejection.
 */
module WordScramble {
  import opened Wrappers
  import opened Text
  import opened Rules

  /** The root word used when the random choice from the word list yields nothing. */
  const FallbackRootWord: string := "silkworm"

  /** `randomElement()`: nothing for an empty list, otherwise the element the random `pick` lands on. */
  function RandomElement(words: seq<string>, pick: nat): (r: Option<string>)
    ensures r.None? <==> words == []
    ensures r.Some? ==> r.value in words
  {
    if words == [] then None else Some(words[pick % |words|])
  }

  class ContentView {
    var usedWords: seq<string>
    var rootWord: string
    var newWord: string

    var errorTitle: string
    var errorMessage: string
    var showError: bool

    /** The dictionary consulted by the realness guard (a spell checker for English). */
    const isRealWord: string -> bool

    /** Accepted words are distinct, and each one is normalised, real and longer than two letters. */
    ghost predicate Valid()
      reads this
    {
      NoDuplicates(usedWords) && forall w <- usedWords :: Admissible(w, isRealWord)
    }

    constructor (isRealWord: string -> bool)
      ensures Valid()
      ensures this.isRealWord == isRealWord
      ensures usedWords == [] && rootWord == "" && newWord == ""
      ensures errorTitle == "" && errorMessage == "" && !showError
    {
      this.isRealWord := isRealWord;
      usedWords := [];
      rootWord := "";
      newWord := "";
      errorTitle := "";
      errorMessage := "";
      showError := false;
    }

    /**
     * Submits the typed text. The normalised answer is ignored when empty;
     * otherwise the first guard it fails raises that guard's alert, and an
     * answer that passes all five is put at the front of the accepted words
     * and the text field is cleared.
     */
    method AddNewWord()
      requires Valid()
      modifies this
      ensures Valid()
      ensures rootWord == old(rootWord)
      ensures var outcome := Validate(old(newWord), old(rootWord), old(usedWords), isRealWord);
        match outcome
        case Ignored =>
          usedWords == old(usedWords) && newWord == old(newWord)
          && errorTitle == old(errorTitle) && errorMessage == old(errorMessage) && showError == old(showError)
        case Rejected(reason) =>
          usedWords == old(usedWords) && newWord == old(newWord)
          && errorTitle == Title(reason) && errorMessage == Message(reason, rootWord) && showError
        case Accepted(word) =>
          usedWords == [word] + old(usedWords) && newWord == ""
          && errorTitle == old(errorTitle) && errorMessage == old(errorMessage) && showError == old(showError)
    {
      var answer := Normalize(newWord);
      if |answer| == 0 {
        return;
      }

      if !IsOriginal(usedWords, answer) {
        WordError(Title(AlreadyUsed), Message(AlreadyUsed, rootWord));
        return;
      }

      var possible := IsPossible(answer);
      if !possible {
        WordError(Title(NotPossible), Message(NotPossible, rootWord));
        return;
      }

      if !isRealWord(answer) {
        WordError(Title(NotRecognized), Message(NotRecognized, rootWord));
        return;
      }

      if !IsMoreThanTwoLetters(answer) {
        WordError(Title(TooShort), Message(TooShort, rootWord));
        return;
      }

      if !IsDifferentFromRootWord(rootWord, answer) {
        WordError(Title(SameAsRoot), Message(SameAsRoot, rootWord));
        return;
      }

      AcceptedWordProperties(newWord, rootWord, usedWords, isRealWord);
      AcceptKeepsNoDuplicates(newWord, rootWord, usedWords, isRealWord);
      usedWords := [answer] + usedWords;
      newWord := "";
    }

    /**
     * Spellability of `word` from the root word: each letter in turn takes one
     * matching occurrence out of a working copy of the root, and the word fails
     * as soon as a letter has none left.
     */
    method IsPossible(word: string) returns (possible: bool)
      ensures possible <==> CanSpell(word, rootWord)
    {
      var tempWord := rootWord;
      for i := 0 to |word|
        invariant multiset(word[..i]) <= multiset(rootWord)
        invariant multiset(tempWord) == multiset(rootWord) - multiset(word[..i])
      {
        var letter := word[i];
        match FirstIndex(tempWord, letter)
        case Some(pos) =>
          TakeLetter(word, rootWord, i, tempWord, pos);
          tempWord := RemoveAt(tempWord, pos);
        case None =>
          MissingLetterNotPossible(word, rootWord, i, tempWord);
          return false;
      }
      assert word[..|word|] == word;
      return true;
    }

    /** Raises the alert with `title` and `message`. */
    method WordError(title: string, message: string)
      modifies this`errorTitle, this`errorMessage, this`showError
      ensures errorTitle == title && errorMessage == message && showError
    {
      errorTitle := title;
      errorMessage := message;
      showError := true;
    }

    /**
     * Starts a round with a root word drawn from the bundled word list.
     * `startWords` is the list file's text, or nothing when it cannot be found
     * or read (where the app stops with a fatal error); `pick` stands for the
     * random choice. The accepted words are kept as they are.
     */
    method StartGame(startWords: Option<string>, pick: nat) returns (loaded: bool)
      requires Valid()
      modifies this`rootWord
      ensures Valid()
      ensures loaded <==> startWords.Some?
      ensures !loaded ==> rootWord == old(rootWord)
      ensures loaded ==> rootWord in Split(startWords.value, '\n')
      ensures loaded ==> rootWord == Split(startWords.value, '\n')[pick % |Split(startWords.value, '\n')|]
    {
      if startWords.None? {
        return false;
      }
      var allWords := Split(startWords.value, '\n');
      rootWord := RandomElement(allWords, pick).GetOr(FallbackRootWord);
      return true;
    }
  }
}
