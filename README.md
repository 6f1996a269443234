# Toolkit CLI core, modelled in Dafny

Toolkit CLI is a terminal toolbox of small utilities. This project models their in-memory logic:

- a task manager, a notebook and a habit tracker, each kept in a JSON file;
- a calculator that checks expressions against an allow-list of names and logs results in a history;
- text statistics, a palindrome check and anagram filtering;
- the `pretty_table` layout helper;
- tic-tac-toe;
- the pomodoro schedule.

Each Dafny module follows one part of `py25/toolkit_cli.py`:

| module | file | what it holds |
|---|---|---|
| `Common` | `common.dfy` | `Option`/`Result`, filtering, `max(ids, default=0) + 1`, ASCII `lower()`, substring search, `join` |
| `Ordering` | `ordering.dfy` | Python's order on tuple sort keys, and a stable `sorted(..., key=..., reverse=...)` |
| `Table` | `table.dfy` | `pretty_table` |
| `Tasks` | `tasks.dfy` | `Task`, `TaskManager` |
| `Notes` | `notes.dfy` | `Note`, `NotesManager` |
| `Habits` | `habits.dfy` | `Habit`, `HabitTracker`, `monthly_stats` and its `YYYY-MM-` prefix |
| `Calc` | `calc.dfy` | `SAFE_NAMES`, `safe_eval`, `Calculator` |
| `TextTools` | `text.dfy` | `TextUtils` |
| `TicTacToe` | `tictactoe.dfy` | `TicTacToe.move` and `winner` |
| `Timer` | `timer.dfy` | the countdowns `Timer.pomodoro` runs |

The JSON-backed managers are classes whose methods update their list or map field in place, as the source does.

- **Saving.** Each holds a ghost field `persisted`: what its JSON file parses to. Every `_save` sets it to the current contents.
- **Loading.** `_load` is a function of an optional parsed value: `Common.LoadList` for the list files of tasks, notes and the calculator history, and `Habits.Load` for the habits object. `None` stands for a file whose reading or parsing raises: it is missing, is not JSON, or has records that `Task(**t)`, `Note(**n)` or the indexing of an entry reject. That case yields an empty collection, as the source's `except Exception` does. Records that load without raising but hold ill-typed values are outside the model (see "Left out").
- **Invariant.** Every method keeps the loaded `persisted` value equal to the in-memory state. So reopening the file gives back what was saved.

`pretty_table`, `TaskManager.toggle`/`edit`, `HabitTracker.list`, `TicTacToe.move` and `Timer.pomodoro` are methods with loops or array updates, proved against specification functions. The pure parts are functions with lemmas:

- the name check and `Calculator.list`;
- the sorting and filtering of `list`;
- `search` and `monthly_stats`;
- `TextUtils` and `winner`.

Sorting is modelled once, in `Ordering`. A sort key is a Python tuple of booleans, integers and strings, compared component by component as Python does. `SortByKey` is a stable insertion sort. Its contract says the result is ordered by the key, is a rearrangement of the input, and keeps tied elements in input order, `reverse=True` included. Any stable sort of the same input gives this same result. So Python's Timsort and this insertion sort agree.

`Calculator.list(n)` is the slice `history[-n:]`:

- a positive `n` gives the last `min(n, len(history))` entries;
- `n == 0` gives the whole history;
- a negative `n` drops the first `-n` entries.

## Model

| member | source | states |
|---|---|---|
| Common.FilterIndices | py25/toolkit_cli.py:273-273 | a list comprehension with a filter keeps the elements at exactly the indices where the test holds, in increasing order |
| Common.FilterEquivalent | py25/toolkit_cli.py:403-403 | two tests that agree on every element keep the same elements |
| Common.NextId | py25/toolkit_cli.py:168-169 | the next id is above every existing id, is 1 for an empty list, and is one more than the largest id |
| Common.ContainsAt | py25/toolkit_cli.py:271-273 | `q in s` holds exactly when `q` occurs in `s` at some index |
| Ordering.SortByKey | py25/toolkit_cli.py:181-187 | `sort(key=...)`/`sorted(..., reverse=...)`: the result is ordered by the key, is a permutation of the input, and elements with tying keys keep their input order |
| Ordering.SortedUnique | py25/toolkit_cli.py:399-403 | two sorted permutations of the same elements are equal when only equal elements tie (the sorted signature is unique) |
| Table.LJust | py25/toolkit_cli.py:129-129 | `ljust` pads with spaces to the width and never truncates; the cell stays at the front |
| Table.ColumnWidths | py25/toolkit_cli.py:110-119 | the widths loop fails exactly when some row has more cells than there are columns, and otherwise gives each column's maximum cell length |
| Table.ColumnWidthBounds | py25/toolkit_cli.py:117-119 | no cell is wider than its column |
| Table.ColumnWidthAttained | py25/toolkit_cli.py:117-119 | a non-empty column is exactly as wide as one of its cells |
| Table.RowsAligned | py25/toolkit_cli.py:122-129 | a row with a cell in each column is laid out exactly as long as the dash rule under the headers |
| Table.TableFails | py25/toolkit_cli.py:110-119 | the layout fails with IndexError exactly when some row of the data has more cells than there are columns |
| Table.TableFailsWithoutHeaders | py25/toolkit_cli.py:110-119 | without headers, the layout fails exactly when some row is longer than the first row |
| Table.TableFailsWithHeaders | py25/toolkit_cli.py:110-119 | with headers, the layout fails exactly when some row has more cells than there are headers |
| Table.LayOut | py25/toolkit_cli.py:120-129 | the lines are the padded header and the dash rule (with headers), then one padded line per body row |
| Table.PrettyTable | py25/toolkit_cli.py:107-130 | the result is "(vazio)" without rows and headers, the IndexError of a too-long row, or the padded lines joined by newlines |
| Tasks.Clamp | py25/toolkit_cli.py:172-172 | the priority lands in 1..5; values inside are kept, values below become 1 and values above become 5 |
| Tasks.FindId | py25/toolkit_cli.py:190-191 | the index of the first task with the id, or -1 exactly when there is none |
| Common.LoadList | py25/toolkit_cli.py:155-163 | a missing or unreadable list file loads an empty list; otherwise the parsed list. The same `_load` serves the notes (lines 235-243) and the calculator history (lines 358-366). This is the corruption-as-reset rule written out, not a derived property |
| Tasks.SelectedMembers | py25/toolkit_cli.py:178-180 | a task is selected exactly when it is stored, shown under `show_done`, and carries the tag when one is given |
| Tasks.ListTasks | py25/toolkit_cli.py:177-187 | `list` returns exactly the selected tasks, ordered by the order's key with ties in stored order |
| Tasks.TaskManager.constructor | py25/toolkit_cli.py:150-163 | a manager starts with the loaded tasks, in step with its file |
| Tasks.TaskManager.Add | py25/toolkit_cli.py:171-175 | appends a task with id max+1 (above every id), clamped priority, `tags or []` and not done, then saves; unique ids stay unique |
| Tasks.TaskManager.Toggle | py25/toolkit_cli.py:189-195 | true exactly when the id exists; then only the first such task flips `done` and it saves; otherwise tasks and file are unchanged |
| Tasks.TaskManager.Delete | py25/toolkit_cli.py:197-203 | true exactly when the id exists; then every task with it is removed and it saves; otherwise tasks and file are unchanged |
| Tasks.TaskManager.Edit | py25/toolkit_cli.py:205-213 | true exactly when the id exists; then only the first such task gets the given fields (no clamping) and it saves; otherwise nothing changes |
| Notes.WithTagMembers | py25/toolkit_cli.py:258-260 | a note passes the tag filter exactly when no tag is given or it carries the tag |
| Notes.ListNotes | py25/toolkit_cli.py:257-261 | `list` returns exactly the notes with the tag, newest first, notes with equal timestamps in stored order |
| Notes.Search | py25/toolkit_cli.py:271-273 | the result is the stored notes, in stored order and with repeats kept, whose lower-cased title, body or some lower-cased tag has the lower-cased query at some index |
| Notes.SearchIgnoresCase | py25/toolkit_cli.py:272-272 | searching for the lower-cased query finds the same notes |
| Notes.SearchEmptyFindsAll | py25/toolkit_cli.py:271-273 | the empty query finds every note |
| Notes.NotesManager.constructor | py25/toolkit_cli.py:230-243 | a notebook starts with the loaded notes, in step with its file |
| Notes.NotesManager.Add | py25/toolkit_cli.py:251-255 | appends a note with id max+1 (above every id), `tags or []` and the given creation time, then saves |
| Notes.NotesManager.Delete | py25/toolkit_cli.py:263-269 | true exactly when the id exists; then every note with it is removed and it saves; otherwise notes and file are unchanged |
| Habits.Load | py25/toolkit_cli.py:291-299 | a missing or unreadable file loads no habits; otherwise one habit per name, filed under its own name, with that name's records |
| Habits.LoadPayload | py25/toolkit_cli.py:291-303 | saving and then loading gives back the same habits |
| Habits.PayloadLoad | py25/toolkit_cli.py:291-303 | loading and then saving writes back the same object |
| Habits.Existing | py25/toolkit_cli.py:306-311 | the habit `add`/`mark` works on is the stored one, or a new one without records. This is `setdefault` written out, not a derived property |
| Habits.HabitTracker.constructor | py25/toolkit_cli.py:287-299 | a tracker starts with the loaded habits, in step with its file |
| Habits.HabitTracker.Add | py25/toolkit_cli.py:305-307 | a new name gets a habit without records; an existing habit keeps its records; it always saves |
| Habits.HabitTracker.Mark | py25/toolkit_cli.py:309-315 | creates the habit if needed and sets exactly the record of the date (today when none or empty) to the value; other habits are unchanged; it saves |
| Habits.CollectValues | py25/toolkit_cli.py:317-318 | `habits.values()`: every habit of the map exactly once, each filed under its own name |
| Habits.StrictByName | py25/toolkit_cli.py:317-318 | habits sorted by name, without repeats and filed under their names, have strictly ascending names |
| Habits.HabitTracker.List | py25/toolkit_cli.py:317-318 | every habit exactly once, in strictly ascending order of name |
| Habits.FormatIntRoundTrip | py25/toolkit_cli.py:324-324 | a zero-filled number reads back as itself and is exactly as wide as asked when it fits |
| Habits.MonthPrefixParts | py25/toolkit_cli.py:324-324 | the `YYYY-MM-` prefix is eight characters whose year and month fields read back as the year and month |
| Habits.MonthPrefixInjective | py25/toolkit_cli.py:324-324 | different months of four-digit years have different `YYYY-MM-` prefixes |
| Habits.MonthlyStats | py25/toolkit_cli.py:320-328 | an unknown habit gives (0, 0, 0.0); otherwise the month's recorded and done dates are counted, dones <= total, the percentage lies in 0..100, is 0 without dates and 100 when all are done |
| Habits.MarkCounts | py25/toolkit_cli.py:309-328 | marking a date of the month adds it to the month's dates and counts it done exactly when the value is true |
| Habits.MarkOtherMonth | py25/toolkit_cli.py:309-328 | marking a date of another month leaves the month's counts alone |
| Calc.SafeNamesArePublic | py25/toolkit_cli.py:335-341 | no allowed name starts with an underscore, so `__import__` and the dunder names of `math` are refused |
| Calc.SafeNamesMembership | py25/toolkit_cli.py:335-341 | `sqrt` and `pi` from `math` and the builtins `abs`, `round`, `min`, `max` are allowed |
| Calc.FirstNotIn | py25/toolkit_cli.py:345-347 | no name is reported exactly when every name is allowed; otherwise the reported name is the first one not allowed |
| Calc.SafeEval | py25/toolkit_cli.py:344-350 | over an allow-list: a syntax error, then the first disallowed name, then the evaluation's failure; success exactly when it compiles, every name is allowed and evaluation succeeds, with the evaluated value |
| Calc.NamesCheckedFirst | py25/toolkit_cli.py:344-350 | with a disallowed name the outcome is a NameError whatever evaluation would have done |
| Calc.Recent | py25/toolkit_cli.py:377-378 | `history[-n:]` is a suffix of the history: the last min(n, len) entries for n >= 1, the whole history for n == 0, all but the first -n for n < 0 |
| Calc.RecentEndsWithLast | py25/toolkit_cli.py:371-378 | after an append, every positive `list(n)` ends with the new entry and `list(1)` is exactly that entry |
| Calc.Calculator.constructor | py25/toolkit_cli.py:353-366 | a calculator starts with the loaded history, in step with its file |
| Calc.Calculator.Eval | py25/toolkit_cli.py:371-375 | returns `safe_eval`'s outcome over `SAFE_NAMES`; on success exactly one entry `(expr, result)` is appended and saved; on any error `safe_eval` raises, history and file are unchanged |
| Calc.Calculator.List | py25/toolkit_cli.py:377-378 | `list(n)` is `Recent(history, n)` and changes nothing |
| TextTools.LineCountIsLines | py25/toolkit_cli.py:389-389 | the count of newlines, plus one for an unterminated last line, equals the number of lines the text splits into |
| TextTools.LinesAtMostChars | py25/toolkit_cli.py:388-389 | a text has no more lines than characters |
| TextTools.Words | py25/toolkit_cli.py:387-387 | `findall(r"\w+")` yields only non-empty words |
| TextTools.WordsCoverText | py25/toolkit_cli.py:387-387 | the words, concatenated, are exactly the word characters of the text in order |
| TextTools.WordsAreRuns | py25/toolkit_cli.py:387-387 | every word is a maximal run of word characters of the text: it cannot be extended on either side |
| TextTools.WordsCountRuns | py25/toolkit_cli.py:387-387 | there is one word per start of a run of word characters |
| TextTools.UniqueWords | py25/toolkit_cli.py:390-390 | the unique words are exactly the lower-cased words |
| TextTools.UniqueAtMostWords | py25/toolkit_cli.py:390-390 | there are no more unique words than words |
| TextTools.WordStatsOf | py25/toolkit_cli.py:386-391 | `word_stats` reports no more unique words than words and no more lines than characters |
| TextTools.IsPalindrome | py25/toolkit_cli.py:394-396 | true exactly when the lower-cased ASCII letters and digits read the same from both ends |
| TextTools.CleanedIgnoresCase | py25/toolkit_cli.py:395-395 | cleaning a lower-cased text gives the same as cleaning the text |
| TextTools.PalindromeIgnoresCase | py25/toolkit_cli.py:394-396 | case does not change the palindrome answer |
| TextTools.Sig | py25/toolkit_cli.py:400-401 | the signature is the word's letters a-z, lower-cased, in ascending order |
| TextTools.SigSameLetters | py25/toolkit_cli.py:400-403 | two words have equal signatures exactly when they have the same letters counted with repetition |
| TextTools.Anagrams | py25/toolkit_cli.py:399-403 | the result is the candidates, in order and with repeats kept, whose `a`-`z` letters are the word's counted with repetition and which differ from the word ignoring case |
| TicTacToe.FirstWon | py25/toolkit_cli.py:574-576 | the first completed line from a given one on, or -1 exactly when none is complete |
| TicTacToe.Winner | py25/toolkit_cli.py:568-579 | the mark of the first completed line in the fixed order, else "empate" on a full board, else nothing |
| TicTacToe.WinnerOnReachable | py25/toolkit_cli.py:568-579 | on a board play can reach, the result is X, O, "empate" or nothing |
| TicTacToe.NoWinnerAtStart | py25/toolkit_cli.py:549-551 | the empty board has no result |
| TicTacToe.Game.constructor | py25/toolkit_cli.py:549-551 | the game starts with nine blanks, X to play, which is a reachable position |
| TicTacToe.Game.Move | py25/toolkit_cli.py:561-566 | succeeds exactly for a blank cell 0..8, which then takes the current mark while the turn passes; otherwise board and turn are unchanged; reachable positions stay reachable |
| TicTacToe.Game.WinnerNow | py25/toolkit_cli.py:568-579 | `winner` of the game's current board |
| Timer.Schedule | py25/toolkit_cli.py:486-493 | a pomodoro of n >= 1 cycles runs 2n-1 countdowns, none for n <= 0 |
| Timer.Pomodoro | py25/toolkit_cli.py:486-493 | the countdowns alternate `work*60` and `short_break*60` seconds, starting and ending with work |
| Timer.ScheduleTotal | py25/toolkit_cli.py:486-493 | a pomodoro lasts `cycles` work periods and `cycles - 1` breaks in all |
| Timer.ShortPomodoro | py25/toolkit_cli.py:486-493 | one minute of work and two of break over two cycles run 60, 120 and 60 seconds |

## Left out

- The terminal menus, `main`, `clear`, `pause`, `header`, `input_nonempty`, `confirm` and `TicTacToe.draw`: interactive input and output.
- File I/O and JSON text: modelled only through the ghost `persisted` value and the parsed input of the constructors. Turning a JSON record into a `Task` or `Note` (with dataclass defaults for absent fields) is part of that parse.
- Failing writes: `_save` runs after the in-memory change. A write that raises leaves memory ahead of the file. The model treats every write as successful.
- `Calc.Calculator.Eval`: a value that `json.dumps` cannot serialise, such as the function `abs` or the complex number `1j`, makes `_save` raise `TypeError` after the entry has been appended. The history then keeps the entry, and every later save fails too. The model's result type `V` is a parameter with no serialisability condition, so it returns `Ok` and saves on that path.
- Ill-typed records: `Task(**t)`, `Note(**n)`, `Habit(name=name, records=rec)` and `(h[0], h[1])` do not check field types. Such a file loads without error, and the failure comes later: `mark` raises on a list-valued record, and `monthly_stats` raises on a record that is not a dictionary. The model's parsed values are typed, so it does not capture these late failures.
- Cell conversion and default arguments: `pretty_table` applies `str(c)` to cells of any type, and the model's cells are strings (`None` or text). The defaults `list(n=20)`, `add(priority=3)` and `pomodoro(25, 5, 4)` are not modelled: callers pass every argument.
- `Tasks.TaskManager.Edit`: only the six `Task` fields can be given. The source ignores unknown keywords, and it sets any value without checking its type. The model's fields are typed.
- Aliasing: `add` returns the very object it stored, so a caller could change the stored task or note through it. The model's records are values.
- Dictionary order: `HabitTracker.habits` is a map. Python's insertion order only shows in the order `_save` writes the habits in. `list` sorts by the unique names.
- `compile`, `eval` and the `math` functions: Python execution and floating point. `Calc.SafeEval` takes the compiled code's `co_names` (or its syntax error) and the evaluation's outcome as inputs. The result type is a type parameter. The allow-list is a parameter of `Calc.SafeEval` too; the calculator passes `SAFE_NAMES`.
- `Calc.SAFE_NAMES`: `dir(math)` depends on the Python version; the constant lists CPython 3.12's names.
- `Habits.MonthlyStats`: the percentage is a real number, not a rounded float.
- `TextTools.Words`: which characters Unicode `\w` matches is a parameter `isWord`.
- `TextTools.UniqueWords`, `Notes.Search`, `TextTools.Anagrams`: `str.lower()` is modelled on ASCII letters only.
- `Tasks.ListTasks`: keys mixing value kinds would raise `TypeError` in Python (say a priority that `edit` set to a string). The model's typed fields rule that out.
- Clock values: `Note.created_at` and the default date of `mark` take `now` and `today` as parameters.
- `Timer.countdown`: a wall-clock loop. `Timer.Pomodoro` records the seconds each countdown is given instead.
- `AddressBook` (SQLite), `FileOrganizer` (directories and `shutil`) and `Converter` (`json`/`csv` files) are not part of this model.
