/**
 * The word-submission logic of the WordScramble screen: the four guards a
 * submitted word must pass, the state they update, and the screen object
 * whose fields are the screen's state variables.
 */
module WordScramble {
  import opened Wrappers
  import opened Letters
  import opened Text

  /** Why a submission was turned down, one kind per guard. */
  datatype Rejection = NotOriginal | NotPossible | NotReal | TooSimple

  /** What a submission does: nothing (empty answer), an error alert, or an accepted word. */
  datatype Verdict = Ignored | Rejected(reason: Rejection) | Accepted

  /** The screen's seven state variables, as one value. */
  datatype State = State(
    usedWords: seq<string>,
    rootWord: string,
    newWord: string,
    currentScore: int,
    errorTitle: string,
    errorMessage: string,
    showingError: bool)

  /** The screen's state when it first appears. */
  const Initial := State([], "", "", 0, "", "", false)

  /** The word has not been accepted before. */
  predicate IsOriginal(word: string, usedWords: seq<string>)
  {
    word !in usedWords
  }

  /** Despite its name, true when the word is long enough, at least three letters. */
  predicate IsTooSimple(word: string)
  {
    |word| >= 3
  }

  /** The alert title for each kind of rejection. */
  function Title(r: Rejection): string
  {
    match r
    case NotOriginal => "Word used already"
    case NotPossible => "Word not possible"
    case NotReal => "Word not recognized"
    case TooSimple => "Word is too simple"
  }

  /** The alert message for each kind of rejection; only the "not possible" one quotes the root word. */
  function Message(r: Rejection, rootWord: string): string
  {
    match r
    case NotOriginal => "Be more original!"
    case NotPossible => "You can't spell that word from '" + rootWord + "' !"
    case NotReal => "You can't just make them up, you know!"
    case TooSimple => "Try something longer!"
  }

  /** The guards in the order they are checked. */
  const GuardOrder: seq<Rejection> := [NotOriginal, NotPossible, NotReal, TooSimple]

  /** Whether `answer` gets past the guard that rejects with `r`. */
  predicate Passes(r: Rejection, answer: string, rootWord: string, usedWords: seq<string>, isReal: string -> bool)
  {
    match r
    case NotOriginal => IsOriginal(answer, usedWords)
    case NotPossible => Composable(answer, rootWord)
    case NotReal => isReal(answer)
    case TooSimple => IsTooSimple(answer)
  }

  /** The decision taken on a normalised answer: empty answers are dropped, otherwise the first failing guard wins. */
  function Validate(answer: string, rootWord: string, usedWords: seq<string>, isReal: string -> bool): Verdict
  {
    if |answer| == 0 then Ignored
    else if !IsOriginal(answer, usedWords) then Rejected(NotOriginal)
    else if !Composable(answer, rootWord) then Rejected(NotPossible)
    else if !isReal(answer) then Rejected(NotReal)
    else if !IsTooSimple(answer) then Rejected(TooSimple)
    else Accepted
  }

  /** The state after the submit action, from the state before it. */
  function AfterAddNewWord(s: State, isReal: string -> bool): State
  {
    var answer := Normalise(s.newWord);
    match Validate(answer, s.rootWord, s.usedWords, isReal)
    case Ignored => s
    case Rejected(r) =>
      s.(errorTitle := Title(r), errorMessage := Message(r, s.rootWord), showingError := true)
    case Accepted =>
      s.(usedWords := [answer] + s.usedWords, currentScore := s.currentScore + |answer|, newWord := "")
  }

  /** The sum of the lengths of `words`. */
  function TotalLength(words: seq<string>): nat
  {
    if words == [] then 0 else |words[0]| + TotalLength(words[1..])
  }

  predicate NoDuplicates(words: seq<string>)
  {
    forall i, j :: 0 <= i < j < |words| ==> words[i] != words[j]
  }

  /**
   * What every reachable state satisfies: the history holds no word twice,
   * every word in it is normalised (lower case, no surrounding
   * whitespace) and at least three letters long, and the
   * score is the total length of the history.
   */
  predicate Invariant(s: State)
  {
    && NoDuplicates(s.usedWords)
    && (forall i :: 0 <= i < |s.usedWords| ==> |s.usedWords[i]| >= 3 && IsNormalised(s.usedWords[i]))
    && s.currentScore == TotalLength(s.usedWords)
  }

  // ---------------------------------------------------------------------------
  // The guards

  /** The answer is rejected with `r` exactly when its guard fails and every guard before it passes. */
  lemma {:induction false} RejectedByFirstFailingGuard(answer: string, rootWord: string, usedWords: seq<string>,
                                                      isReal: string -> bool, k: nat)
    requires k < |GuardOrder|
    ensures Validate(answer, rootWord, usedWords, isReal) == Rejected(GuardOrder[k])
        <==> && answer != []
             && !Passes(GuardOrder[k], answer, rootWord, usedWords, isReal)
             && forall j :: 0 <= j < k ==> Passes(GuardOrder[j], answer, rootWord, usedWords, isReal)
  {
    var pass := j requires 0 <= j < |GuardOrder| => Passes(GuardOrder[j], answer, rootWord, usedWords, isReal);
    assert pass(0) == IsOriginal(answer, usedWords);
    assert pass(1) == Composable(answer, rootWord);
    assert pass(2) == isReal(answer);
    assert pass(3) == IsTooSimple(answer);
  }

  /** The answer is accepted exactly when it is non-empty and passes every guard. */
  lemma {:induction false} AcceptedIffAllGuardsPass(answer: string, rootWord: string, usedWords: seq<string>,
                                                   isReal: string -> bool)
    ensures Validate(answer, rootWord, usedWords, isReal) == Accepted
        <==> answer != [] && forall r :: Passes(r, answer, rootWord, usedWords, isReal)
  {
    if answer != [] && Validate(answer, rootWord, usedWords, isReal) == Accepted {
      forall r ensures Passes(r, answer, rootWord, usedWords, isReal) {
        match r
        case NotOriginal =>
        case NotPossible =>
        case NotReal =>
        case TooSimple =>
      }
    }
    if answer != [] && forall r :: Passes(r, answer, rootWord, usedWords, isReal) {
      assert Passes(NotOriginal, answer, rootWord, usedWords, isReal);
      assert Passes(NotPossible, answer, rootWord, usedWords, isReal);
      assert Passes(NotReal, answer, rootWord, usedWords, isReal);
      assert Passes(TooSimple, answer, rootWord, usedWords, isReal);
    }
  }

  /** A word already in the history is turned down as not original, whatever the other guards say. */
  lemma UsedWordRejected(answer: string, rootWord: string, usedWords: seq<string>, isReal: string -> bool)
    requires answer in usedWords && answer != []
    ensures Validate(answer, rootWord, usedWords, isReal) == Rejected(NotOriginal)
  {
  }

  /** An accepted answer is at most as long as the root word it was spelled from. */
  lemma AcceptedFitsRootWord(answer: string, rootWord: string, usedWords: seq<string>, isReal: string -> bool)
    requires Validate(answer, rootWord, usedWords, isReal) == Accepted
    ensures 3 <= |answer| <= |rootWord|
  {
    ComposableBounds(answer, rootWord);
  }

  /** "silkk" cannot be spelled from "silkworm": the root word has only one 'k'. */
  lemma SilkkNotPossible(isReal: string -> bool)
    ensures Validate("silkk", "silkworm", [], isReal) == Rejected(NotPossible)
  {
    assert multiset("silkk")['k'] == 2 && multiset("silkworm")['k'] == 1;
  }

  /** "or" can be spelled from "silkworm", so a real "or" falls to the length guard. */
  lemma OrTooSimple(isReal: string -> bool)
    requires isReal("or")
    ensures Validate("or", "silkworm", [], isReal) == Rejected(TooSimple)
  {
    OrInSilkworm();
  }

  lemma OrInSilkworm()
    ensures Composable("or", "silkworm")
  {
    assert multiset("or") == multiset{'o', 'r'};
    assert multiset("silkworm") == multiset{'s', 'i', 'l', 'k', 'w', 'o', 'r', 'm'};
  }

  lemma SilentIsAnagramOfListen()
    ensures Composable("silent", "listen")
  {
    assert multiset("silent") == multiset{'s', 'i', 'l', 'e', 'n', 't'};
    assert multiset("listen") == multiset{'l', 'i', 's', 't', 'e', 'n'};
  }

  /** The anagram "silent" of "listen" is accepted when the dictionary knows it, and scores six. */
  lemma SilentAccepted(isReal: string -> bool, s: State)
    requires isReal("silent")
    requires s.rootWord == "listen" && s.usedWords == [] && s.newWord == "silent"
    ensures AfterAddNewWord(s, isReal).usedWords == ["silent"]
    ensures AfterAddNewWord(s, isReal).currentScore == s.currentScore + 6
  {
    assert IsNormalised("silent");
    NormaliseShape("silent");
    SilentIsAnagramOfListen();
    assert Validate("silent", "listen", [], isReal) == Accepted;
    AcceptanceRecordsWord(s, isReal);
  }

  // ---------------------------------------------------------------------------
  // The submit action

  /** With an empty normalised answer nothing changes, not even the error fields. */
  lemma EmptyAnswerIgnored(s: State, isReal: string -> bool)
    requires Normalise(s.newWord) == []
    ensures AfterAddNewWord(s, isReal) == s
  {
  }

  /**
   * A rejection raises the alert with the title and message of the first
   * failing guard and leaves the history, the score, the typed text and the
   * root word as they were.
   */
  lemma RejectionKeepsHistory(s: State, isReal: string -> bool, r: Rejection)
    requires Validate(Normalise(s.newWord), s.rootWord, s.usedWords, isReal) == Rejected(r)
    ensures var t := AfterAddNewWord(s, isReal);
            && t.usedWords == s.usedWords && t.currentScore == s.currentScore
            && t.newWord == s.newWord && t.rootWord == s.rootWord
            && t.showingError && t.errorTitle == Title(r) && t.errorMessage == Message(r, s.rootWord)
  {
  }

  /**
   * An acceptance puts the answer at the front of the history, adds its
   * length to the score, clears the typed text and leaves the error fields
   * and the root word alone.
   */
  lemma AcceptanceRecordsWord(s: State, isReal: string -> bool)
    requires Validate(Normalise(s.newWord), s.rootWord, s.usedWords, isReal) == Accepted
    ensures var t := AfterAddNewWord(s, isReal);
            var answer := Normalise(s.newWord);
            && t.usedWords == [answer] + s.usedWords && t.currentScore == s.currentScore + |answer|
            && t.newWord == "" && t.rootWord == s.rootWord
            && t.errorTitle == s.errorTitle && t.errorMessage == s.errorMessage && t.showingError == s.showingError
  {
  }

  lemma InitialInvariant()
    ensures Invariant(Initial)
  {
  }

  /** Putting a new, normalised word of three or more letters in front of the history keeps the invariant. */
  lemma PrependKeepsInvariant(s: State, word: string)
    requires Invariant(s)
    requires word !in s.usedWords && |word| >= 3 && IsNormalised(word)
    ensures Invariant(s.(usedWords := [word] + s.usedWords, currentScore := s.currentScore + |word|))
  {
    var words := [word] + s.usedWords;
    assert words[1..] == s.usedWords;
    forall i, j | 0 <= i < j < |words| ensures words[i] != words[j] {
      assert words[j] == s.usedWords[j - 1];
    }
    forall i | 0 <= i < |words| ensures |words[i]| >= 3 && IsNormalised(words[i]) {
      if i > 0 {
        assert words[i] == s.usedWords[i - 1];
      }
    }
  }

  /** Every submission keeps the invariant. */
  lemma AddNewWordPreservesInvariant(s: State, isReal: string -> bool)
    requires Invariant(s)
    ensures Invariant(AfterAddNewWord(s, isReal))
  {
    var answer := Normalise(s.newWord);
    match Validate(answer, s.rootWord, s.usedWords, isReal)
    case Ignored =>
    case Rejected(r) =>
      var t := AfterAddNewWord(s, isReal);
      assert t.usedWords == s.usedWords && t.currentScore == s.currentScore;
    case Accepted =>
      NormaliseShape(s.newWord);
      PrependKeepsInvariant(s, answer);
      var t := AfterAddNewWord(s, isReal);
      assert t.usedWords == [answer] + s.usedWords && t.currentScore == s.currentScore + |answer|;
  }

  // ---------------------------------------------------------------------------
  // Sequences of submissions

  /** Typing `input` into the text field and submitting it. */
  function Submit(s: State, input: string, isReal: string -> bool): State
  {
    AfterAddNewWord(s.(newWord := input), isReal)
  }

  /** Submitting each of `inputs` in turn. */
  function Run(s: State, inputs: seq<string>, isReal: string -> bool): State
    decreases |inputs|
  {
    if inputs == [] then s else Run(Submit(s, inputs[0], isReal), inputs[1..], isReal)
  }

  /**
   * One submission either leaves the history and the score alone, or puts
   * one word in front of the history and adds that word's length to the score.
   */
  lemma SubmitEffect(s: State, input: string, isReal: string -> bool)
    ensures var t := Submit(s, input, isReal);
            && t.rootWord == s.rootWord
            && ((t.usedWords == s.usedWords && t.currentScore == s.currentScore)
                || (|t.usedWords| == |s.usedWords| + 1 && t.usedWords[1..] == s.usedWords
                    && t.currentScore == s.currentScore + |t.usedWords[0]|))
  {
    var u := s.(newWord := input);
    var answer := Normalise(input);
    match Validate(answer, u.rootWord, u.usedWords, isReal)
    case Ignored =>
    case Rejected(r) =>
    case Accepted =>
      var t := AfterAddNewWord(u, isReal);
      assert t.usedWords == [answer] + s.usedWords;
      assert t.usedWords[1..] == s.usedWords;
  }

  lemma {:induction false} RunPreservesInvariant(s: State, inputs: seq<string>, isReal: string -> bool)
    requires Invariant(s)
    ensures Invariant(Run(s, inputs, isReal))
    decreases |inputs|
  {
    if inputs != [] {
      AddNewWordPreservesInvariant(s.(newWord := inputs[0]), isReal);
      RunPreservesInvariant(Submit(s, inputs[0], isReal), inputs[1..], isReal);
    }
  }

  lemma {:induction false} TotalLengthAppend(a: seq<string>, b: seq<string>)
    ensures TotalLength(a + b) == TotalLength(a) + TotalLength(b)
  {
    if a != [] {
      assert (a + b)[0] == a[0];
      assert (a + b)[1..] == a[1..] + b;
      TotalLengthAppend(a[1..], b);
    } else {
      assert a + b == b;
    }
  }

  /**
   * `t` keeps the root word of `s`, its history ends with the whole history
   * of `s`, and its score is the score of `s` plus the total length of the
   * words in front of that old history.
   */
  predicate Extends(s: State, t: State)
  {
    var added := |t.usedWords| - |s.usedWords|;
    && t.rootWord == s.rootWord
    && added >= 0
    && t.usedWords[added..] == s.usedWords
    && t.currentScore == s.currentScore + TotalLength(t.usedWords[..added])
  }

  /** Two suffixes in a row: `a` ends `b` and `b` ends `c`, so `a` ends `c` behind both fronts. */
  lemma SuffixOfSuffix(a: seq<string>, b: seq<string>, c: seq<string>)
    requires |a| <= |b| <= |c|
    requires b[|b| - |a|..] == a && c[|c| - |b|..] == b
    ensures c[|c| - |a|..] == a
    ensures c[..|c| - |a|] == c[..|c| - |b|] + b[..|b| - |a|]
  {
    var older, newer := b[..|b| - |a|], c[..|c| - |b|];
    assert b == older + a;
    assert c == newer + b;
    assert c == (newer + older) + a;
  }

  lemma ExtendsTransitive(a: State, b: State, c: State)
    requires Extends(a, b) && Extends(b, c)
    ensures Extends(a, c)
  {
    var A, B, C := a.usedWords, b.usedWords, c.usedWords;
    SuffixOfSuffix(A, B, C);
    TotalLengthAppend(C[..|C| - |B|], B[..|B| - |A|]);
  }

  lemma SubmitExtends(s: State, input: string, isReal: string -> bool)
    ensures Extends(s, Submit(s, input, isReal))
  {
    SubmitEffect(s, input, isReal);
    var t := Submit(s, input, isReal);
    if t.usedWords != s.usedWords {
      assert t.usedWords[..1] == [t.usedWords[0]];
      assert TotalLength([t.usedWords[0]]) == |t.usedWords[0]|;
    } else {
      assert t.usedWords[..0] == [];
    }
  }

  /**
   * Over any sequence of submissions the root word stays, the old history is
   * kept as the tail of the new one, and the score grows by exactly the total
   * length of the words put in front of it, so it never decreases.
   */
  lemma {:induction false} RunScore(s: State, inputs: seq<string>, isReal: string -> bool)
    ensures Extends(s, Run(s, inputs, isReal))
    ensures Run(s, inputs, isReal).currentScore >= s.currentScore
    decreases |inputs|
  {
    if inputs == [] {
      assert s.usedWords[..0] == [];
    } else {
      var m := Submit(s, inputs[0], isReal);
      SubmitExtends(s, inputs[0], isReal);
      RunScore(m, inputs[1..], isReal);
      ExtendsTransitive(s, m, Run(m, inputs[1..], isReal));
    }
  }

  // ---------------------------------------------------------------------------
  // The screen

  /** The screen object; its fields are the screen's state variables. */
  class ContentView {
    var usedWords: seq<string>
    var rootWord: string
    var newWord: string
    var currentScore: int
    var errorTitle: string
    var errorMessage: string
    var showingError: bool

    function Snapshot(): State
      reads this
    {
      State(usedWords, rootWord, newWord, currentScore, errorTitle, errorMessage, showingError)
    }

    ghost predicate Valid()
      reads this
    {
      Invariant(Snapshot())
    }

    constructor ()
      ensures Snapshot() == Initial
      ensures Valid()
    {
      usedWords, rootWord, newWord := [], "", "";
      currentScore := 0;
      errorTitle, errorMessage, showingError := "", "", false;
    }

    /**
     * Whether `word` can be spelled from the root word: each of its letters
     * in turn is struck from a working copy of the root word, and the check
     * fails at the first letter the copy no longer holds.
     */
    method IsPossible(word: string) returns (possible: bool)
      ensures possible <==> Composable(word, rootWord)
    {
      var tempWord := rootWord;
      for i := 0 to |word|
        invariant multiset(tempWord) + multiset(word[..i]) == multiset(rootWord)
        invariant |tempWord| + i == |rootWord|
      {
        var letter := word[i];
        match FirstIndex(tempWord, letter)
        case Some(pos) =>
          assert word[..i + 1] == word[..i] + [letter];
          tempWord := RemoveAt(tempWord, pos);
        case None =>
          MissingLetterNotComposable(word, i, tempWord, rootWord);
          return false;
      }
      assert word[..|word|] == word;
      return true;
    }

    /** Raises the error alert with the given title and message. */
    method WordError(title: string, message: string)
      modifies this
      ensures errorTitle == title && errorMessage == message && showingError
      ensures usedWords == old(usedWords) && rootWord == old(rootWord) && newWord == old(newWord)
      ensures currentScore == old(currentScore)
    {
      errorTitle := title;
      errorMessage := message;
      showingError := true;
    }

    /** The submit action, with the dictionary check `isReal` supplied by the caller. */
    method AddNewWord(isReal: string -> bool)
      modifies this
      ensures Snapshot() == AfterAddNewWord(old(Snapshot()), isReal)
      ensures old(Valid()) ==> Valid()
    {
      ghost var before := Snapshot();
      if Valid() {
        AddNewWordPreservesInvariant(before, isReal);
      }
      var answer := Normalise(newWord);
      if |answer| == 0 {
        return;
      }
      if !IsOriginal(answer, usedWords) {
        WordError(Title(NotOriginal), Message(NotOriginal, rootWord));
        return;
      }
      var possible := IsPossible(answer);
      if !possible {
        WordError(Title(NotPossible), Message(NotPossible, rootWord));
        return;
      }
      if !isReal(answer) {
        WordError(Title(NotReal), Message(NotReal, rootWord));
        return;
      }
      if !IsTooSimple(answer) {
        WordError(Title(TooSimple), Message(TooSimple, rootWord));
        return;
      }
      assert AfterAddNewWord(before, isReal)
          == before.(usedWords := [answer] + before.usedWords, currentScore := before.currentScore + |answer|, newWord := "");
      usedWords := [answer] + usedWords;
      currentScore := currentScore + |answer|;
      newWord := "";
    }

    /**
     * Starts a round with a root word taken from the lines of `startWords`;
     * `pick` stands for the random choice. Only the root word changes: the
     * history and the score carry over.
     */
    method StartGame(startWords: string, pick: nat)
      modifies this
      ensures rootWord in Split(startWords, '\n')
      ensures usedWords == old(usedWords) && currentScore == old(currentScore) && newWord == old(newWord)
      ensures errorTitle == old(errorTitle) && errorMessage == old(errorMessage) && showingError == old(showingError)
    {
      var allWords := Split(startWords, '\n');
      rootWord := allWords[pick % |allWords|];
    }
  }
}
