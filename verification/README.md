# Typing test word session, in Dafny

This project models the word session of the typing-speed trainer's only
screen, `TypingScreen`. The screen shows a few target words. The user types
into a text field. When the trimmed text equals a displayed word, that word
leaves the list, a random pool word is appended, the typed-word count goes
up by one and the field is cleared. While the field stays empty and the user
has been idle for more than three seconds, a timer overwrites every displayed
word with a random pool word. The title bar shows words per minute.

The state is one immutable record, `WordSession.Session`. It holds the word
pool, the displayed words, the typed-word count, the field's text, the start
time, the clock reading and the time of the last keystroke. Every transition
is a pure function. Each random draw and clock reading the screen makes is a
parameter:

- the permutation `shuffled()` returns, for the initial fill;
- the word `random()` returns, for the replacement after a match;
- one word per slot, for the reshuffle;
- `now`, for every clock reading.

The modules follow the screen's parts:

- `Text`: whitespace, `isBlank()` and `trim()`.
- `WordList`: `indexOf`, `removeAt` and `take` on the displayed list.
- `WordSession`: the state, the initial fill, the match check, the input handler, the idle reshuffle and the clock tick.
- `Metrics`: words per minute.
- `SessionTrace`: the three kinds of event on the screen's single event loop, one step `Next`, and `Run`, a fold over a list of events.
- `SessionProps`: properties that relate several transitions.

Three facts about the code shape the model:

- The initial fill is `shuffled().take(5)`. That is a sample without replacement: a prefix of a permutation, never more copies of a word than the pool has.
- An empty pool is accepted. It gives an empty list (`take` of nothing). The reshuffle guard's `isNotEmpty()` test and the fact that nothing can match in an empty list keep `random()` from ever drawing from an empty pool (`SessionProps.DrawsNeedWords`).
- The list holds `min(5, |pool|)` words, not always exactly five.

## Model

| member | source | states |
|---|---|---|
| Text.IsBlank | app/src/main/java/com/example/typingtest/MainActivity.kt:105 | the character-by-character test holds exactly when every character of the text is whitespace, the empty text included |
| Text.Trim | app/src/main/java/com/example/typingtest/MainActivity.kt:105-106 | the trimmed text is empty exactly when the input is blank; neither of its ends is whitespace; it is an infix of the input with only whitespace before and after it, so inner whitespace is kept |
| Text.TrimCharacterized | app/src/main/java/com/example/typingtest/MainActivity.kt:106 | any infix with whitespace-free ends and only whitespace around it is the trimmed text, so `Trim`'s contract determines the result |
| Text.TrimIdempotent | app/src/main/java/com/example/typingtest/MainActivity.kt:106 | trimming an already trimmed text changes nothing |
| WordList.IndexOf | app/src/main/java/com/example/typingtest/MainActivity.kt:107 | -1 exactly when the word is absent; otherwise a position holding the word with no earlier position holding it |
| WordList.RemoveAt | app/src/main/java/com/example/typingtest/MainActivity.kt:109 | one element shorter; elements before the index keep their places; later ones move down by one; the multiset loses exactly the removed element |
| WordList.Take | app/src/main/java/com/example/typingtest/MainActivity.kt:71 | length `min(n, |xs|)`; element-wise a prefix; a sub-multiset of the list |
| WordSession.Start | app/src/main/java/com/example/typingtest/MainActivity.kt:66-85 | the first composition holds the given pool and the three given clock readings, displays nothing, has typed nothing and has an empty field |
| WordSession.Populate | app/src/main/java/com/example/typingtest/MainActivity.kt:70-72 | appends `min(5, |pool|)` words to what was displayed; the appended words are pool words and a sub-multiset of the pool; no other field changes |
| WordSession.MatchAt | app/src/main/java/com/example/typingtest/MainActivity.kt:105-108 | a hit exactly when the text is not blank and its trimmed form is displayed; the hit word equals the trimmed text and is non-empty; no earlier word equals it |
| WordSession.CheckMatch | app/src/main/java/com/example/typingtest/MainActivity.kt:104-116 | without a hit the session is unchanged; on a hit at `i` the length is kept, words before `i` stay, words after `i` move down by one, the last word is the draw, the count rises by one, the text is cleared and nothing else changes |
| WordSession.Input | app/src/main/java/com/example/typingtest/MainActivity.kt:130-134 | the keystroke time is always `now`; without a hit only the text and the time change; on a hit the text is cleared, the count rises by one, the list is what the match check makes of the old list, and the pool, start time and clock reading are kept |
| WordSession.IdleTick | app/src/main/java/com/example/typingtest/MainActivity.kt:95-100 | unless the field is empty, the idle time is strictly over 3000 ms and the list is non-empty, nothing changes; when those hold, slot `i` holds the `i`-th draw; the length never changes and no other field changes |
| WordSession.ClockTick | app/src/main/java/com/example/typingtest/MainActivity.kt:78-83 | the clock reading becomes `now` and nothing else changes |
| Metrics.ElapsedMinutes | app/src/main/java/com/example/typingtest/MainActivity.kt:88 | elapsed minutes times 60000 is the elapsed milliseconds, and it is positive exactly when the clock reading is after the start |
| Metrics.Wpm | app/src/main/java/com/example/typingtest/MainActivity.kt:88-89 | non-negative; 0 when the clock is not past the start; otherwise rate times elapsed milliseconds equals count times 60000 |
| Metrics.WpmFallsAsTimePasses | app/src/main/java/com/example/typingtest/MainActivity.kt:88-89 | for a fixed positive count, a later clock reading gives a strictly lower rate |
| Metrics.WpmExamples | app/src/main/java/com/example/typingtest/MainActivity.kt:88-89 | 30 words in 60000 ms is 30.0; 30 words in 30000 ms is 60.0; no elapsed time is 0.0 |
| SessionTrace.Next | app/src/main/java/com/example/typingtest/MainActivity.kt:78-134 | a keystroke, clock tick or reshuffle tick keeps the list length, the pool and the start time; it raises the count by at most one and never lowers it; it keeps every displayed word a pool word when the draws are pool words |
| SessionTrace.InputKeepsPoolWords | app/src/main/java/com/example/typingtest/MainActivity.kt:109-111 | after a keystroke every displayed word is still a pool word, if it was before and the draw is a pool word |
| SessionTrace.IdleTickKeepsPoolWords | app/src/main/java/com/example/typingtest/MainActivity.kt:98-100 | after a reshuffle tick every displayed word is still a pool word, if it was before and the draws are pool words |
| SessionTrace.Run | app/src/main/java/com/example/typingtest/MainActivity.kt:78-134 | over any list of events: the list length, the pool and the start time are kept; the count never falls and rises by at most the number of events; the pool-word invariant is kept |
| SessionProps.InitialFill | app/src/main/java/com/example/typingtest/MainActivity.kt:71 | the first fill shows `min(5, |pool|)` words; they are the front of the shuffled pool, all pool words and a sub-multiset of the pool; the count is 0 and the field is empty |
| SessionProps.NonMatchRepeatIsNoOp | app/src/main/java/com/example/typingtest/MainActivity.kt:106-108 | a non-matching text leaves the session unchanged apart from text and time; checking or typing it a second time changes nothing more |
| SessionProps.OnlyFirstCopyRemoved | app/src/main/java/com/example/typingtest/MainActivity.kt:107-109 | a later copy of the matched word stays displayed, one position earlier |
| SessionProps.DrawsNeedWords | app/src/main/java/com/example/typingtest/MainActivity.kt:96-111 | when every displayed word is a pool word, a hit or a firing reshuffle implies the pool is non-empty, so `random()` always has a word to return |
| SessionProps.ReshuffleIsLevelTriggered | app/src/main/java/com/example/typingtest/MainActivity.kt:92-101 | after a reshuffle the guard still holds at every later tick, because no idle flag is kept between ticks |
| SessionProps.ReshuffleThresholdIsStrict | app/src/main/java/com/example/typingtest/MainActivity.kt:95-96 | an idle time of exactly 3000 ms changes nothing; 3001 ms replaces every slot |
| SessionProps.MatchRearmsReshuffle | app/src/main/java/com/example/typingtest/MainActivity.kt:96-114 | after a keystroke that matches, a later reshuffle fires exactly when more than 3000 ms have passed since that keystroke |
| SessionProps.WhitespaceBlocksReshuffle | app/src/main/java/com/example/typingtest/MainActivity.kt:96-105 | whitespace-only text never matches, and while it sits in the field no reshuffle fires, because the guard tests for empty text and not blank text |
| SessionProps.SessionInvariant | app/src/main/java/com/example/typingtest/MainActivity.kt:70-134 | after the first fill and any events with pool draws: `min(5, |pool|)` words are displayed, all pool words; the count is at most the number of events; the start time is unchanged |
| SessionProps.CatScenario | app/src/main/java/com/example/typingtest/MainActivity.kt:104-116 | typing " cat " over ["cat", "dog", "sun"] matches position 0, leaves ["dog", "sun", draw], counts one word and clears the field |

## Left out

- Word loading (`parse`, lines 49-61) reads a packaged XML resource through Android's pull parser. That is foreign library I/O. The pool is a given sequence in the session.
- The Compose UI is presentation only and is not modelled: `Scaffold`, the top bar, the text field, the word column, `MainActivity.onCreate` and `GreetingPreview`.
- The coroutine loops and their `delay(1000)` and `delay(5000)` periods are not modelled. Each loop body is one step taking the clock reading `now` (`WordSession.ClockTick`, `WordSession.IdleTick`). Any interleaving of steps is allowed (`SessionTrace.Run`). How often the ticks come is not modelled.
- The initial fill runs in its own launched effect, which could in principle interleave with the first ticks or keystrokes. `SessionProps.SessionInvariant` takes the fill to come before every other event.
- `System.currentTimeMillis()`, `shuffled()` and `random()` are parameters. The random number generator is not modelled.
- Only the text of the field's `TextFieldValue` is modelled. The cursor selection and the input composition are not.
- Metrics.Wpm: computes in exact reals rather than 32-bit floats. It does not model rounding or the `"%.1f"` formatting in the title (line 120).
- Text.IsWhitespace has a fixed table: the ASCII separators plus the Unicode space, line and paragraph separators. It is not checked against Kotlin's `Char.isWhitespace`. Only the worked example `SessionProps.CatScenario` (through `SessionProps.CatSelected`) depends on the table, and only on `' '` being whitespace and `'c'` and `'t'` not being whitespace.
- The typed-word count is an unbounded natural number, and timestamps are unbounded integers. Overflow of Kotlin's 32-bit `Int` count and of the 64-bit `Long` idle-time subtraction is not modelled; neither is reachable in a realistic session.
