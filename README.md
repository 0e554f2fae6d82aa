# WordScramble submission logic in Dafny

WordScramble is a single-screen word game for iOS. The player sees a root word
and types candidate words. A candidate is accepted when it has not been used
before, can be spelled from the root word's letters (each letter used at most
as often as the root word holds it), is a real English word, and has at least
three letters. Each accepted word goes to the front of the history list and
adds its length to the score. Each rejection raises an alert whose title and
message name the first guard that failed.

This project models that logic, which lives in `addNewWord` and the helpers
around it, and proves properties of it:

- `Letters.dfy`: finding and removing one letter, as `firstIndex(of:)` and
  `remove(at:)` do. Also the sub-multiset relation `Composable` that the
  "is it possible" check decides, with its letter-count reading.
- `Text.dfy`: normalising an answer. This is lower-casing followed by trimming
  from both ends the characters of Foundation's `whitespacesAndNewlines` set.
  The file also splits the start-word text into lines on `"\n"`.
- `WordScramble.dfy`: the seven screen state variables as a `State` value and as
  the fields of the class `ContentView`. It holds the four guards, the decision
  `Validate`, and the state change `AfterAddNewWord`. The class methods
  `IsPossible` (the letter-striking loop) is proved against `Composable`,
  `AddNewWord` against `AfterAddNewWord` and `StartGame` against `Text.Split`.
  The contract of `WordError` gives every field's new value. The rest of the file
  proves the history/score invariant and what any sequence of submissions does.

The dictionary lookup `isReal` is not modelled. `AddNewWord` takes it as a
parameter `isReal: string -> bool`, so every property holds for any dictionary.

`startGame` only reassigns `rootWord`. It clears neither the history nor the
score, and the model does the same. So a word accepted in an earlier round is
still rejected as "Word used already" in a later one, and the score adds up
across rounds. The code behaves this way, and the model follows the code. A
line of the start-word text may also be empty, for example the line after a
final newline (`Text.SplitTrailingNewline`). So nothing guarantees a non-empty
root word.

## Model

| member | source | states |
|---|---|---|
| Letters.FirstIndex | WordScramble/ContentView.swift:121 | The result is None exactly when the letter is absent. Otherwise it is a position holding the letter, with no occurrence before it. |
| Letters.RemoveAt | WordScramble/ContentView.swift:122 | Removing the character at a position makes the string one shorter and takes exactly that one character out of its multiset. |
| Letters.ComposableIffCounts | WordScramble/ContentView.swift:117-128 | A word is composable from a pool exactly when no letter occurs in the word more often than in the pool, so multiplicity is respected. |
| Letters.ComposableBounds | WordScramble/ContentView.swift:120-127 | The empty word is always composable. A composable word is never longer than its pool. |
| Letters.MissingLetterNotComposable | WordScramble/ContentView.swift:121-125 | Suppose the letters left over after the consumed prefix do not contain the next letter. Then the whole word is not composable, which justifies the early `return false`. |
| Text.LowerChar | WordScramble/ContentView.swift:58 | A capital A-Z maps to its small letter. Every other character is unchanged. |
| Text.LowerSpec | WordScramble/ContentView.swift:58 | About `Text.Lower` (`lowercased()`): lower-casing keeps the length, works character by character, and yields a lower-case string. |
| Text.TrimStartSpec | WordScramble/ContentView.swift:58-60 | The front trim drops exactly the leading run of whitespace. What it leaves is a suffix that does not start with whitespace. |
| Text.TrimEndSpec | WordScramble/ContentView.swift:58-60 | The back trim drops exactly the trailing run of whitespace. What it leaves is a prefix that does not end with whitespace. |
| Text.TrimSpec | WordScramble/ContentView.swift:58-60 | About `Text.Trim` (`trimmingCharacters(in: .whitespacesAndNewlines)`): trimming yields a contiguous run of the input with no whitespace at either end. Everything cut off is whitespace. The result is empty exactly when the input is all whitespace. |
| Text.TrimIdempotent | WordScramble/ContentView.swift:58-60 | Trimming twice is the same as trimming once. |
| Text.NormaliseShape | WordScramble/ContentView.swift:58-60 | About `Text.Normalise`, the whole of lines 58-60: a normalised answer is lower case with no whitespace at its ends. The strings normalisation leaves unchanged are exactly the normalised ones. |
| Text.NormaliseIdempotent | WordScramble/ContentView.swift:58-60 | Normalising an already normalised answer changes nothing. |
| Text.NormaliseExample | WordScramble/ContentView.swift:58-60 | `"  Listen "` normalises to `"listen"`. |
| Text.Split | WordScramble/ContentView.swift:103 | Splitting on a separator yields at least one piece, and no piece contains the separator. |
| Text.JoinSplit | WordScramble/ContentView.swift:103 | Putting the lines back together with newlines gives the original text. |
| Text.SplitJoin | WordScramble/ContentView.swift:103 | Splitting pieces that were joined, none of which contains the separator, gives those pieces back. |
| Text.SplitTrailingNewline | WordScramble/ContentView.swift:103 | A line followed by a newline splits into that line and an empty line. |
| WordScramble.UsedWordRejected | WordScramble/ContentView.swift:113-115 | About `WordScramble.IsOriginal` (`isOriginal`, not in the history) and `Validate`: a non-empty answer already in the history is rejected as not original, whatever the later guards would say. |
| WordScramble.RejectedByFirstFailingGuard | WordScramble/ContentView.swift:64-84 | About `WordScramble.Validate`, the guard chain at 64-84, with `Passes` giving each guard: take the guards in the order originality, possibility, realness, length. An answer is rejected with a guard's reason exactly when it is non-empty, fails that guard, and passes every guard before it. |
| WordScramble.AcceptedIffAllGuardsPass | WordScramble/ContentView.swift:62-86 | An answer is accepted exactly when it is non-empty and passes all four guards. |
| WordScramble.AcceptedFitsRootWord | WordScramble/ContentView.swift:146-148 | About `WordScramble.IsTooSimple` (`isTooSimple`, at least three characters) and `Validate`: an accepted answer has at least three letters and is no longer than the root word. |
| WordScramble.SilkkNotPossible | WordScramble/ContentView.swift:69-74 | `"silkk"` against `"silkworm"` is rejected as not possible, because the root has only one `k`. |
| WordScramble.OrTooSimple | WordScramble/ContentView.swift:81-84 | `"or"` can be spelled from `"silkworm"`. When it is also real, the length guard rejects it. |
| WordScramble.SilentAccepted | WordScramble/ContentView.swift:86-91 | With root `"listen"` and an empty history, a real `"silent"` is accepted. The history becomes `["silent"]` and the score rises by 6. |
| WordScramble.EmptyAnswerIgnored | WordScramble/ContentView.swift:58-62 | When the normalised answer is empty, the submit action leaves the whole state unchanged, error fields included. |
| WordScramble.RejectionKeepsHistory | WordScramble/ContentView.swift:64-84 | About `WordScramble.AfterAddNewWord` on a rejection, with `Title` and `Message` giving the alert texts of lines 65-83: history, score, typed text and root word stay the same. The alert is shown with the failing guard's title and message, as `wordError` does. |
| WordScramble.AcceptanceRecordsWord | WordScramble/ContentView.swift:86-91 | About `WordScramble.AfterAddNewWord` on acceptance: the history becomes `[answer] + old history` and the score rises by `\|answer\|`. The typed text becomes `""`. The error fields and the root word stay the same. |
| WordScramble.InitialInvariant | WordScramble/ContentView.swift:11-19 | The initial state satisfies the invariant: no duplicates, every word normalised and at least 3 long, score equal to the total length of the history. |
| WordScramble.PrependKeepsInvariant | WordScramble/ContentView.swift:86-89 | Putting a new, normalised word of at least three letters in front of the history, and adding its length to the score, keeps the invariant. |
| WordScramble.AddNewWordPreservesInvariant | WordScramble/ContentView.swift:57-92 | About `WordScramble.AfterAddNewWord`, the whole of `addNewWord`: every submission keeps the invariant. |
| WordScramble.SubmitEffect | WordScramble/ContentView.swift:57-92 | A submission either leaves history and score alone, or puts one word in front and adds that word's length to the score. The root word never changes. |
| WordScramble.RunPreservesInvariant | WordScramble/ContentView.swift:57-92 | The invariant holds after any sequence of submissions. |
| WordScramble.RunScore | WordScramble/ContentView.swift:86-89 | After any sequence of submissions, the root word is the same and the old history is the tail of the new one. The score equals the old score plus the total length of the newly inserted words, so it never decreases. |
| WordScramble.ContentView.constructor | WordScramble/ContentView.swift:11-19 | The screen starts with empty history, empty root word and typed text, score 0, empty error texts and no alert. |
| WordScramble.ContentView.IsPossible | WordScramble/ContentView.swift:117-128 | The letter-striking loop returns true exactly when the word is composable from `rootWord`. The loop invariant keeps the working copy's multiset plus the consumed prefix's multiset equal to the root word's, and the copy shrinks by one character per letter. The method changes no field. |
| WordScramble.ContentView.WordError | WordScramble/ContentView.swift:150-154 | Sets the error title and message and shows the alert. Every other field stays as it was. |
| WordScramble.ContentView.AddNewWord | WordScramble/ContentView.swift:57-92 | The new field values are exactly `AfterAddNewWord` of the old ones, and a valid screen stays valid. |
| WordScramble.ContentView.StartGame | WordScramble/ContentView.swift:96-111 | Afterwards the root word is one of the lines of the start-word text. History, score, typed text and error fields stay as they were. |

## Left out

- The SwiftUI view tree, the `.alert` presentation, `withAnimation` and the preview are presentation only.
- The internals of `isReal` are left out. `UITextChecker` with a UTF-16 `NSRange` is a platform library, so realness is an opaque parameter.
- WordScramble.ContentView.StartGame: finding `start.txt` in the bundle and reading it are I/O, so the method takes the file's text as a parameter. The `fatalError` on a load failure is not modelled. `randomElement()` is randomness, stood in for by the parameter `pick`. Its `?? "silkworm"` fallback is unreachable because splitting always yields at least one line (`Text.Split`).
- Text.Lower: `lowercased()` is modelled for ASCII letters only. Unicode case mapping, including mappings that change the length, is not.
- Swift counts and iterates `Character`s, which are extended grapheme clusters. The model works on Unicode scalar values, as Dafny's `char` is. So `"\r\n"` is two characters here and one in Swift, and letter counts can differ for combined characters. Swift also compares `String`s and `Character`s by canonical equivalence, so `usedWords.contains` (line 114) and `firstIndex(of:)` (line 121) treat a precomposed "é" and "e" followed by a combining acute accent as equal. The model compares exact scalar sequences, so `WordScramble.IsOriginal`, `Letters.FirstIndex` and the no-duplicates invariant distinguish the two spellings.
- WordScramble.ContentView.AddNewWord: `currentScore` is an unbounded integer. Swift's trap on `Int` overflow is not modelled.
- Editing the text field (the `$newWord` binding) is not a method. `WordScramble.Submit` stands for typing an input and submitting it. Likewise the `$showingError` binding of the alert (line 51), which sets `showingError` back to false when the player dismisses the alert, is not a method. No member of the model resets `showingError`.
