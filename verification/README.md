# Crossword puzzle model

A Dafny model of a 5x5 crossword game. The game keeps a dictionary of clues.
Each clue has a start cell, an orientation tag (`A` for across, `D` for down),
an answer and a clue text. The game derives a board from the clues: every
cell some clue covers starts blank (`_`), and every other cell is blocked
(`■`). The player then guesses, reveals and asks for hints on single clues
until every clue reads its answer. The driver decides which typed commands
are well formed. It also lists the clues grouped by orientation.

Modules, one per concept:

- `Clues` (`clues.dfy`): the clue record, its dictionary key
  `(row, column, tag)`, and the listing order of `Clue.__lt__`. That order is
  built on Python's string order, which is modelled as `StrLess`.
- `Crossword` (`crossword.dfy`): the board as a `Grid` (5 rows of 5
  characters) and the clue dictionary. The dictionary is an
  insertion-ordered list with distinct keys, the way a Python dict behaves.
  The module also holds the loader (`LoadAll`/`Load`), `ChangeGuess`,
  `RevealAnswer`, `FindWrongLetter` and the `IsSolved` loop.
- `CrosswordFacts` (`crossword_facts.dfy`): properties that relate several
  of these operations.
- `Display` (`display.dfy`): `display_clues`, returning the two groups it
  prints.
- `Commands` (`commands.dfy`): the decisions inside `get_validation`. It
  covers argument checks, key resolution, the hint, and the guess re-prompt
  loop.
- `Wrappers` (`wrappers.dfy`): `Option` and `Result`.

Modelling choices:

- Records reach the loader already decoded, as a sequence of `Clue` values.
- The tag stays a string because the code never rejects other tags. The
  loader marks a clue across when its tag is `"A"` and down for every other
  tag. Guessing, revealing, hinting and the solved check act only on `"A"`
  and `"D"` clues and skip the rest.
- Operations are pure functions from the old board to the new one. Refusing
  a guess returns `Failure`, so the caller keeps its board unchanged.

Three behaviours of the code are easy to miss:

- A second record with an existing key silently replaces the first. Nothing
  rejects it. The cells only the first record covered stay blank
  (`DuplicateKeyLeavesStrayBlank`).
- A guess with characters outside `A-Z_` is reported but still written
  (`InvalidCharactersAreWritten`). Only a length mismatch is refused.
- The loader does no bounds checking. The model requires every span to lie
  on the board (`Fits`); see "Left out".

## Model

| member | source | states |
|---|---|---|
| Clues.StrLessIsLexicographic | crossword.py:60 | String comparison inside the tuple comparison is lexicographic: a proper prefix comes first, otherwise the first differing character decides |
| Clues.StrLessIrreflexive | crossword.py:60 | No string sorts before itself |
| Clues.StrLessTransitive | crossword.py:60 | String order is transitive |
| Clues.StrLessTotal | crossword.py:60 | Any two different strings are ordered one way or the other |
| Clues.Less | crossword.py:53-60 | The tuple comparison `(tag, row, column) < (tag', row', column')`: tags by string order, and for equal tags rows and then columns; its properties are the Less lemmas below |
| Clues.LessIrreflexive | crossword.py:53-60 | No clue sorts before itself |
| Clues.LessTransitive | crossword.py:53-60 | The clue order is transitive |
| Clues.LessAsymmetric | crossword.py:53-60 | The clue order never holds both ways |
| Clues.LessTrichotomy | crossword.py:53-60 | Two clues are ordered one way or the other iff their (tag, row, column) differ |
| Clues.AcrossBeforeDown | crossword.py:53-60 | Every Across clue sorts before every Down clue, and never after |
| Clues.SameTagOrder | crossword.py:53-60 | Within one orientation, clues sort by row and then by column |
| Crossword.WriteFrom | crossword.py:136-140 | Writing a string into a span from letter i on: covered cells at offset >= i get that letter of the string, and every other cell is unchanged |
| Crossword.ChangeGuess | crossword.py:122-140 | Fails iff the guess length differs from the answer length, and then nothing is written. On success, span cell i holds guess[i] and every cell outside the span is unchanged. The character set is not checked |
| Crossword.RevealAnswer | crossword.py:142-153 | Afterwards the clue reads its answer, and every cell outside its span is unchanged |
| Crossword.MismatchFrom | crossword.py:163-169 | The scan from letter i returns the least index >= i whose cell differs from the answer, or -1 iff there is none |
| Crossword.FindWrongLetter | crossword.py:155-170 | Returns the least index whose cell differs from the answer, or -1 iff the span matches. Always -1 for a tag other than A or D |
| Crossword.Lookup | proj07.py:134 | A key is found iff some dictionary entry carries it, and what is found is an entry with that key |
| Crossword.Assign | crossword.py:87-88 | After assignment the key looks up the new clue, and every other key looks up what it did before |
| Crossword.AssignKeepsKeysDistinct | crossword.py:87-88 | Assignment never creates a second entry for a key |
| Crossword.AssignKeepsKeyOrder | crossword.py:87-88 | Assigning to a key already present keeps every key at its position |
| Crossword.BlockedGrid | crossword.py:71 | The constructor's board is blocked on every cell |
| Crossword.Mark | crossword.py:90-96 | The marking loop blanks exactly the loader's span from letter i on, across for tag A and down for any other tag, and leaves every other cell alone |
| Crossword.LoadAll | crossword.py:81-96 | After loading records, a cell is blank iff some record's span covers it, and otherwise keeps its old value |
| Crossword.LoadAllLookup | crossword.py:87-88 | After loading, each key looks up the last record carrying it. Keys that no record carries keep their old lookup |
| Crossword.LoadAllKeepsKeysDistinct | crossword.py:87-88 | Loading never puts two entries under one key |
| Crossword.LoadAllKeepsKeyOrder | crossword.py:87-88 | Reloading records whose keys are all present keeps every key at its position |
| Crossword.Load | crossword.py:64-96 | Constructor plus `_load`: the board is blank exactly where some record's span reaches and blocked elsewhere, and each key finds the last record carrying it, or nothing when no record has it |
| Crossword.IsSolved | crossword.py:172-188 | The early-exit loop over clues and letters returns true iff every A/D clue's span reads its answer |
| CrosswordFacts.LoadValid | crossword.py:81-88 | Every loaded clue fits the board, and no key appears twice |
| CrosswordFacts.LoadOpensSpans | crossword.py:90-96 | After loading, no cell of any stored clue's span is blocked |
| CrosswordFacts.ReloadIsIdempotent | proj07.py:79-80 | Loading the same records again into the loaded puzzle, as the game does, changes neither the dictionary nor the board |
| CrosswordFacts.InvalidCharactersAreWritten | crossword.py:129-140 | A guess of the right length that holds a character outside GUESS_CHARS is accepted, and that character lands on the board |
| CrosswordFacts.GuessingTheAnswerReveals | crossword.py:133-153 | `change_guess` with the clue's own answer succeeds and gives the same board as `reveal_answer` |
| CrosswordFacts.RevealIsIdempotent | crossword.py:142-153 | Revealing a clue twice leaves the same board as revealing it once |
| CrosswordFacts.RevealLeavesNoWrongLetter | crossword.py:142-170 | After a reveal, `find_wrong_letter` on that clue returns -1 |
| CrosswordFacts.RevealKeepsDisjointClues | crossword.py:142-170 | Revealing one clue leaves the wrong-letter answer of a clue with a disjoint span unchanged |
| CrosswordFacts.FindWrongLetterDependsOnSpan | crossword.py:155-170 | `find_wrong_letter` reads only the clue's own span: two boards that agree there give the same answer |
| CrosswordFacts.ChangeGuessKeepsSpansOpen | crossword.py:133-140 | A guess made only of GUESS_CHARS never blocks a cell of any clue's span |
| CrosswordFacts.RevealKeepsSpansOpen | crossword.py:142-153 | Revealing an answer that holds no `■` never blocks a cell of any clue's span |
| CrosswordFacts.SolvedIffNoWrongLetter | crossword.py:155-188 | The puzzle is solved iff `find_wrong_letter` returns -1 for every clue in the dictionary |
| CrosswordFacts.RevealAllMatches | crossword.py:142-153 | After revealing each clue of a list whose crossing answers agree, every clue of the list reads its answer |
| CrosswordFacts.RevealingEveryClueSolves | crossword.py:172-188 | Revealing every clue of a puzzle whose crossing answers agree makes it solved |
| CrosswordFacts.DuplicateKeyLeavesStrayBlank | crossword.py:87-96 | A second record under the same key replaces the first, yet a cell only the first covered stays blank with no stored clue covering it |
| Display.Group | proj07.py:99-103 | A group holds every clue with the tag, as often as it occurs, and no clue with another tag |
| Display.InsertSortedKeepsSorted | proj07.py:105-106 | Inserting into a sorted list keeps it sorted |
| Display.SortClues | proj07.py:105-106 | The sorted group is ordered by the clue order and is a permutation of its input |
| Display.DisplayClues | proj07.py:89-110 | Across group first, then Down. Each is sorted and draws its clues, with multiplicity, from the clues of its tag. For n = 0 it holds all of them; otherwise it holds min(n, size) of them and no omitted clue sorts before a shown one, that is, the first min(n, size) in sorted order |
| Display.Truncate | proj07.py:109 | `clues[:n or None]` is a prefix of the list: all of it for n = 0 or n at least its length, otherwise exactly n clues |
| Display.TruncateKeepsSmallest | proj07.py:109 | Cutting a sorted list keeps it sorted, and no dropped clue sorts before a kept one |
| Display.SortedIsUnique | proj07.py:105-106 | Two sorted lists holding the same clues, with no order key twice, are equal |
| Display.GroupOrderIsDetermined | proj07.py:99-106 | With distinct dictionary keys, any sorted arrangement of a group is the one listed. Neither the sort algorithm nor the dictionary's iteration order matters |
| Commands.IsDigits | proj07.py:122-129 | `isdigit()` restricted to ASCII: a non-empty string of the digits 0-9 |
| Commands.DigitsValue | proj07.py:126-133 | `int()` of a digit string: k digits give a number below 10^k, and at least 10^(k-1) without a leading zero |
| Commands.DigitsValueOfDecimal | proj07.py:126 | Reading back the decimal digits of a number with `int()` gives the number |
| Commands.LeadingZeroIgnored | proj07.py:133 | A leading zero does not change the number a token names |
| Commands.ValidateAsWritten | proj07.py:120-121 | On ASCII tokens, as written, validation crashes iff the line has no token, and otherwise decides as the corrected validation does |
| Commands.BlankLineCrashes | proj07.py:120-121 | A blank line crashes the code as written, and the corrected validation rejects it |
| Commands.Validate | proj07.py:113-163 | C is accepted iff it has 2 tokens and a digit count. R/T/G are accepted iff they have 4 tokens, digits, A or D, and a present key; they then carry the stored clue. S/Q/H are accepted iff alone. Other first tokens are unrecognised. Never crashes |
| Commands.HintFor | proj07.py:141-146 | No hint iff the clue reads its answer. Otherwise the hint is the 1-based position of the first wrong letter and the answer's letter there |
| Commands.FollowingTheHintProgresses | proj07.py:142-146 | Writing the hinted letter at the hinted cell moves the next hint strictly further along, or leaves the clue correct |
| Commands.Upper | proj07.py:149 | `.upper()` on ASCII: keeps the length, leaves no lower-case ASCII letter, maps each lower-case letter to the upper-case letter at the same alphabet position and keeps every other character |
| Commands.UpperIsIdempotent | proj07.py:149 | Upper-casing an upper-cased line changes nothing |
| Commands.AcceptGuess | proj07.py:148-155 | One pass of the prompt, in terms of what the user types: the line is accepted iff it has the answer's length and uses only ASCII letters, in either case, and `_`; what is kept is its upper-cased form |
| Commands.GuessCharsAreUpperOrBlank | crossword.py:22 | GUESS_CHARS holds exactly the 26 upper-case ASCII letters and `_` |
| Commands.FirstAcceptedGuess | proj07.py:148-155 | The re-prompt loop yields the first accepted line, after rejecting every earlier one. It yields nothing iff no line is acceptable |
| Commands.GuessCommand | proj07.py:147-157 | The guess command writes the first accepted guess. That guess is valid and of the right length, so `change_guess` never refuses it |

## Left out

- Reading the puzzle file (`open`, `csv.DictReader`, crossword.py:79-86): the loader takes decoded records.
- Spans that leave the board: the code has no bounds check and relies on Python's `IndexError` or on negative-index wrap-around. The model requires `Fits` of every record instead.
- `Clue.__str__`/`__repr__` and `Crossword.__str__`/`__repr__`: text formatting only.
- `input`, `print`, the re-prompt by recursion in `open_crossword_file` and the `main` loop with its redisplay checks (proj07.py:52-86, 166-201): I/O and control plumbing. The `main` loop also reads `user_input[1]` after a failed `G` command, which can crash; that loop is not part of this model.
- `str.split()`: `Commands.Validate` takes the list of tokens.
- Commands.Validate: `IsDigits` accepts the ASCII digits 0-9 only. Python's `isdigit()` also accepts other Unicode digits. For decimal digits such as `３` or `٣`, `int()` converts them, so the code accepts `C ３` and resolves `R ٠ ٠ A` to the key (0, 0, "A"), while the model rejects both. For non-decimal digits such as `²`, `int()` raises, and that crash is not modelled.
- Commands.AcceptGuess: accepts exactly the lines of the answer's length made of ASCII letters and `_`. Python's `upper()` also maps some non-ASCII letters to ASCII ones, for example dotless `ı` to `I` and long `ſ` to `S`, so the code also accepts lines holding those, and the model rejects them.
- Commands.Upper: upper-cases ASCII letters only and keeps every other character and the length. Python's `upper()` also maps non-ASCII letters, for example `é` to `É`, and some change the length, for example `ß` to `SS`.
- Commands.IsDigits: accepts the ASCII digits 0-9 only. Python's `isdigit()` also accepts other Unicode digits such as `３`, `٣` and `²`. See the `Commands.Validate` line for what follows from that.
- Commands.ValidateAsWritten: crashes only on a blank line. The code also raises `ValueError` when a token passes `isdigit()` but is not a decimal digit, such as `²` in `C ²` or `R ² 0 A` (proj07.py:126 and 133), and `main` does not catch it. That crash is not modelled because digits are modelled as ASCII only; see the `Commands.IsDigits` line.
- The printed message of `change_guess` for characters outside GUESS_CHARS is left out. It changes nothing, and the characters are still written.
- `list.sort()` is Python's stable Timsort. The model uses insertion sort. `Display.GroupOrderIsDetermined` shows the two agree whenever the dictionary keys are distinct, which they always are.
- The printed clue texts of `display_clues` are left out. Its result is the two groups.

## Findings

| source | as written | input that shows it | evidently intended | confidence | as-written member | corrected member |
|---|---|---|---|---|---|---|
| proj07.py:120-121 | `get_validation` reads `user_input[0]` without checking that the line had a token | a blank or all-whitespace command line, whose token list is empty | reject the line with "Invalid option/arguments" like every other malformed command | high; not executed | Commands.ValidateAsWritten, Commands.BlankLineCrashes | Commands.Validate |
