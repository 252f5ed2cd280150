# fcd core, modelled in Dafny

fcd finds a directory by an abbreviated name. It matches the pattern against each directory's base name with a greedy subsequence scorer. It ranks the matches by a lexicographic order of keys. It then lets the user pick one of the top 20 in a raw-mode terminal list, or cancel. This project models those three pieces of `bin/fcd.js` and proves what they promise.

- `matcher.dfy`, module `Matcher`: `fuzzyScore` as a method with its loop. It always takes the first occurrence of each pattern character after the previous match. It returns `None` exactly when the pattern is not a subsequence of the text. On success, the positions are a strictly increasing embedding, pointwise leftmost among all embeddings, and the score has a closed form (`Credit(positions) - (|text| - |pattern|)`).
- `ranking.dfy`, module `Ranking`: the candidate record, the comparator passed to `sort`, the strict order it stands for (`Precedes`), and the sorted list (`Sort`). `Sort` is proved to be a sorted permutation whose head has the best score. For candidates with distinct paths, it is proved independent of input order.
- `selector.dfy`, module `Selector`: the display cap, `colorizeMatch` (a method with its loop, plus the function it is proved against), the lines of `render`, and the key dispatch of `onData`. The dispatch is stated twice: as a pure transition function (`Moved`, `Run`), and as a class `Session` whose `Step` method updates the cursor in place. `InteractiveSelect` drives a session over a given sequence of key presses and also covers the non-terminal fast path.
- `scenario.dfy`, module `Scenario`: the pattern "ap" against "api", "app" and "apple". The matcher's contract fixes their scores at 35, 35 and 33. They sort as api, app, apple whatever order they arrive in.

The final tie-break of the ranking is `localeCompare` on the full path; the model uses character-code order (see below). A match at index 0 earns the +10 contiguity bonus as well as the +3 start bonus, because `lastMatch` starts at -1 (bin/fcd.js:12, 21).

## Model

| member | source | states |
|---|---|---|
| Matcher.FuzzyScore | bin/fcd.js:8-31 | returns None iff the pattern is not a subsequence; otherwise the positions embed the pattern strictly left to right, each is the first occurrence after the previous one, they are leftmost among all embeddings, the score is the sum of per-index gains minus the length difference, that difference is non-negative, and the empty pattern gives score -\|text\| with no positions |
| Matcher.IndexOf | bin/fcd.js:16 | -1 iff the character does not occur at or after the cursor; otherwise the index of its first occurrence there |
| Matcher.GreedyIsLeftmost | bin/fcd.js:15-19 | a first-occurrence prefix match is pointwise no further right than any embedding of the whole pattern |
| Matcher.EmbeddingsPassCursor | bin/fcd.js:16-17 | every embedding puts the next pattern character after the cursor, so a miss there means no embedding exists (the early `return null`) |
| Matcher.MissedCharacter | bin/fcd.js:16-17 | a pattern character missing after the greedy prefix match means the pattern is not a subsequence of the text at all |
| Matcher.GreedyStep | bin/fcd.js:19-26 | appending the found index keeps a first-occurrence embedding of the longer prefix and adds exactly that index's gain |
| Matcher.EmbeddingFits | bin/fcd.js:29 | a pattern only matches a text at least as long, so the length penalty is never negative |
| Matcher.GreedyUnique | bin/fcd.js:15-19 | two first-occurrence embeddings of one pattern in one text are equal, so the contract fixes the positions |
| Matcher.PrefixMatch | bin/fcd.js:15-19 | a text starting with the pattern is matched at 0 .. \|p\|-1 |
| Matcher.PrefixCredit | bin/fcd.js:20-23 | a prefix match of m characters earns 0, 20, or 15m + 6 for m >= 2 |
| Matcher.GreedyExample | bin/fcd.js:16-19 | "ab" in "xaxb" is matched at [1, 3] |
| Matcher.ReversedPairFails | bin/fcd.js:15-17 | "ba" does not match "ab" |
| Matcher.ContiguousBeatsGapped | bin/fcd.js:20-29 | "ab" scores 36 against "ab" and 24 against "axb" |
| Ranking.StrCompare | bin/fcd.js:258 | three-way comparison whose sign is negative, zero or positive exactly as the first string is lexicographically smaller, equal or larger |
| Ranking.StrCompareTransitive | bin/fcd.js:258 | the string comparison is transitive |
| Ranking.Compare | bin/fcd.js:252-260 | negative iff a ranks before b (higher score, then smaller depth, name length, full length, then smaller path), positive iff b ranks before a, zero iff all five keys tie |
| Ranking.PrecedesIrreflexive | bin/fcd.js:252-260 | no candidate ranks before itself |
| Ranking.PrecedesTransitive | bin/fcd.js:252-260 | the ranking is transitive |
| Ranking.PrecedesTotal | bin/fcd.js:252-260 | any two candidates tie on every key or one ranks strictly before the other, never both ways |
| Ranking.CompareConsistent | bin/fcd.js:252-260 | the comparator is sign-antisymmetric and transitive, as `sort` requires |
| Ranking.Sort | bin/fcd.js:252 | `candidates.sort` with the comparator, written as a stable insertion sort; what it promises is proved in the four `Sort…` lemmas that follow |
| Ranking.SortSorted | bin/fcd.js:252-260 | the sorted list never has a later candidate ranking before an earlier one |
| Ranking.SortPermutes | bin/fcd.js:252-260 | the sorted list is a permutation of the input |
| Ranking.SortHeadBest | bin/fcd.js:252-260 | the first sorted candidate has the maximal score |
| Ranking.SortedUnique | bin/fcd.js:252-260 | two sorted lists with distinct paths and the same elements are equal |
| Ranking.SortDeterministic | bin/fcd.js:252-260 | any arrangement of the same candidates with distinct paths sorts to the same list |
| Scenario.ApScores | bin/fcd.js:8-31 | "ap" scores 35 against "api" and "app" and 33 against "apple" |
| Scenario.ApRanking | bin/fcd.js:252-260 | those three candidates sort as api, app, apple from any arrival order |
| Selector.Shown | bin/fcd.js:40-41 | at most 20 candidates are shown, a prefix of the sorted list, all of them when there are at most 20 |
| Selector.ColorizeMatch | bin/fcd.js:47-57 | the output equals the text with every matched index wrapped in red, and the early return for no positions agrees with it |
| Selector.ColorizedPlain | bin/fcd.js:48 | with no position inside the text the text is returned unchanged |
| Selector.ColorizedLength | bin/fcd.js:51-55 | the output grows by the ten escape characters per highlighted index |
| Selector.Row | bin/fcd.js:70-74 | one candidate row: the `>` or blank marker, a blank, the highlighted base name, three blanks and the display path, wrapped in inverse video when selected; its markers are proved in `RowMarks` |
| Selector.DisplayPath | bin/fcd.js:71 | an empty relative path is shown as "."; any other is shown as it is |
| Selector.Render | bin/fcd.js:66-76 | exactly \|shown\| + 1 lines: the hint and one row per shown candidate, the row at the cursor selected |
| Selector.RowMarks | bin/fcd.js:69-75 | a selected row starts with the inverse escape and `>`, an unselected one with a blank, and only a selected one starts with the inverse escape |
| Selector.RenderMarksSelected | bin/fcd.js:69-75 | only the row at the cursor starts with the inverse escape and the `>` marker; every other row starts with a blank |
| Selector.Classify | bin/fcd.js:84-134 | the key table of `onData`: Ctrl-C, Escape and q cancel; carriage return and newline confirm; the up arrow, k and K move up; the down arrow, j and J move down; g and G jump to the ends; any other chunk is ignored |
| Selector.Moved | bin/fcd.js:98-134 | a motion keeps the cursor in [0, n); up moves to the previous row and wraps from 0 to n - 1, down moves to the next row and wraps from n - 1 to 0; g goes to 0 and G to n - 1 |
| Selector.UpDownInverse | bin/fcd.js:98-122 | up then down, and down then up, restore the cursor |
| Selector.Run | bin/fcd.js:83-135 | a confirmed session yields the path of one of the shown candidates |
| Selector.CancelFromAnywhere | bin/fcd.js:85-89 | Ctrl-C, Escape or q cancels from any cursor position |
| Selector.EnterConfirmsCursor | bin/fcd.js:91-96 | carriage return or newline confirms the candidate under the cursor |
| Selector.IgnoredKeyInert | bin/fcd.js:83-135 | an unrecognised chunk changes neither the outcome nor the number of redraws |
| Selector.UpThenDownCancels | bin/fcd.js:112-122 | "k" then "j" leaves the outcome unchanged, at the cost of two redraws |
| Selector.JumpsThenEnter | bin/fcd.js:124-134 | g then Enter confirms the first shown candidate, G then Enter the last |
| Selector.Session.constructor | bin/fcd.js:40-45 | a session shows the capped list, starts at row 0 with the listener attached, and has drawn one frame |
| Selector.Session.Frame | bin/fcd.js:66-75 | the frame on screen has one line more than the shown list, starts with the hint, and shows the row under the cursor as the selected one |
| Selector.Session.Step | bin/fcd.js:83-135 | cancel keys resolve Cancelled and confirm keys the path at the old cursor, both detaching the listener; motion keys move the cursor as `Moved` says and redraw once; other keys change nothing; the outcome agrees with `Run` |
| Selector.InteractiveSelect | bin/fcd.js:33-143 | without a terminal it resolves to the first candidate's path and draws nothing; otherwise the outcome is `Run` over the key presses from row 0, and the frames drawn are the initial one plus one per motion |

## Left out

- Spawning `find`, reading its output line by line, and the process exit codes (bin/fcd.js:189-250, 262-278): these are subprocess and process I/O. The check for an empty candidate list before selecting is modelled only as the requirement `|candidates| >= 1`.
- Building a candidate from a path, using `path.resolve`, `basename` and `split(path.sep)` (bin/fcd.js:225-243): `depth`, `nameLength` and `fullLength` are given fields of `Candidate`.
- `toLowerCase` on the pattern and the base name (bin/fcd.js:212, 229): inputs are taken as already normalised.
- Ranking.StrCompare: `localeCompare` is locale-sensitive; the model compares strings by character code, so paths whose locale order differs from code order may rank differently.
- Ranking.Sort: `Array.prototype.sort` works in place through the engine's own algorithm. The model is a stable insertion sort on a sequence. The proved properties (sorted, a permutation, unique when paths are distinct) hold for any correct sort, but the in-place update is not modelled.
- JavaScript strings are UTF-16: `for ... of` walks code points while `indexOf` and `length` count code units. The model treats every character as one unit, so characters outside the Basic Multilingual Plane are not modelled.
- JavaScript numbers are doubles: scores and key differences are exact integers here, which matches the source for any realistic name length.
- Terminal side effects (bin/fcd.js:59-64, 77-80, 137-142): raw mode, hiding and showing the cursor, writing the frame, and the cursor-up escape before a redraw are not modelled. A session records only whether its listener is still attached (`listening`, cleared by the cleanup on a resolving key) and how many frames it has drawn (`renders`). `Render` gives the lines of a frame; `path.relative` is a function parameter.
- TTY detection (bin/fcd.js:35): `InteractiveSelect` takes `interactive`, standing for "both stdin and stderr are terminals".
- The Promise and the `data` listener: key presses are a sequence given to `InteractiveSelect`. A session that runs out of keys without resolving ends as `Browsing`, standing for a promise that is still pending.
- Command-line handling, usage text and the `FCD_MAX_DEPTH` parse (bin/fcd.js:147-185).
