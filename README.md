# Which episode should we watch: a Dafny model

`random_episode.py` keeps a personal catalogue of TV series in a spreadsheet. Each row holds a
Title, a Seasons count and "Eps Compressed": the per-season episode counts written as
space-separated integers. From a series' counts the program draws a random season and then a random
episode of that season. New series come from an online show-metadata search, where the user confirms
one candidate, or from manual entry of a season count and one episode count per season. After each
addition the title dropdown is refreshed.

This project models that logic:

- `EpisodeCodec` (codec.dfy) covers the "Eps Compressed" text. `Encode` is
  `" ".join(map(str, counts))`. `Decode` is `split()` followed by `int()` on each piece.
  `SeasonMap` is the `{season + 1: count}` dictionary built from the decoded counts. Python's
  `str(int)`, `int(str)`, `str.split()` and `" ".join` are written out character by character, and
  the round-trip is proved.
- `TitleText` (titletext.dfy) covers `str.title()`, which is applied to a name before it is stored.
  It also covers the ascending string order the dropdown is sorted in: an insertion sort proved
  sorted and a permutation.
- `Catalogue` (catalogue.dfy) holds the rows, lookup by exact title (`extract_episode_data`) and
  append-if-absent (`add_to_database`) as functions on the row sequence, with lemmas about them.
  The duplicate check in `add_to_database` compares the name as typed, but the row stores the
  title-cased name. The model keeps this behaviour. Lemmas show that "foo" is not rejected when
  "Foo" is stored, and that a name typed in title case does keep titles unique.
- `Selector` (selector.dfy) covers `randomizer`. Both draws are nondeterministic choices, and only
  the range of the result is proved.
- `UserInput` (userinput.dfy) covers the manual-entry loop, which aborts at the first bad answer,
  and the candidate-confirmation loop of the online search. Dialog answers arrive as
  already-parsed values.
- `EpisodePickerApp` (app.dfy) holds the program state between user actions: the rows, the
  dropdown titles and the selected title. It is a class whose methods are the user actions, each
  specified by the functions above.

An episode dictionary `{1: e1, ..., n: en}` is represented by its values `[e1, ..., en]`. Every
caller builds the dictionary with keys `1..n` in insertion order, so its values in order determine
it. `SeasonMapShape` and `SeasonMapInjective` show that nothing is lost.

Three behaviours of the program are modelled as the code has them:
- The duplicate check compares the raw name, so "foo" is stored again under the title "Foo" when
  "Foo" is already stored (`Catalogue.CaseVariantIsNotADuplicate`).
- `randint(1, count)` raises for a season whose count is below 1. `Selector.Randomizer` reports this
  as `EmptyRange`.
- A dialog cancelled part-way through manual entry raises `TypeError`, which `except ValueError`
  does not catch. Nothing is written either way, and the model treats both cases alike.

## Model

| member | source | states |
|---|---|---|
| `EpisodeCodec.EncodeDecodeRoundTrip` | random_episode.py:66-67 | decoding the "Eps Compressed" text written at line 110 gives back every count, in order, for any integers |
| `EpisodeCodec.SplitJoin` | random_episode.py:66 | `split()` of a space-joined list of non-empty, whitespace-free pieces returns exactly those pieces |
| `EpisodeCodec.ParseIntRoundTrip` | random_episode.py:66 | `int(str(i)) == i` for every integer, negative ones included |
| `EpisodeCodec.DigitsRoundTrip` | random_episode.py:66 | the decimal digits `str` prints for a natural number read back to that number |
| `EpisodeCodec.ParseIntRejects` | random_episode.py:66 | `int()` raises for a piece with a character that is neither a digit nor a leading sign |
| `EpisodeCodec.DecodeRejectsGarbage` | random_episode.py:66 | an "Eps Compressed" value such as "10 x" cannot be decoded, because `int("x")` raises |
| `EpisodeCodec.Split` | random_episode.py:66 | every piece `split()` returns is non-empty and holds no whitespace |
| `EpisodeCodec.SeasonMapShape` | random_episode.py:67 | the decoded dictionary has keys exactly 1..n, key s holds the s-th count, and it has n entries |
| `EpisodeCodec.SeasonMapInjective` | random_episode.py:67 | different count lists give different dictionaries, so counts and dictionary determine each other |
| `TitleText.TitleCaseAt` | random_episode.py:108 | `title()` upper-cases a letter exactly when the character before it is not a letter, and lower-cases every other letter |
| `TitleText.TitleCaseIdempotent` | random_episode.py:108 | title-casing a stored title leaves it unchanged |
| `TitleText.LexLeTotal` | random_episode.py:145 | any two titles are comparable in Python's string order |
| `TitleText.LexLeTransitive` | random_episode.py:145 | Python's string order is transitive |
| `TitleText.Insert` | random_episode.py:145 | inserting a title into a sorted list keeps it sorted and adds exactly that title |
| `TitleText.Sort` | random_episode.py:145 | `sort_values(ascending=True)` gives the same titles, as a multiset, in ascending order |
| `TitleText.SortedHeadIsLeast` | random_episode.py:147-148 | the first title of a sorted list is no greater than any title in it |
| `Catalogue.FindTitle` | random_episode.py:64-65 | the row found is the first whose Title equals the name exactly, and none is found exactly when no Title equals it |
| `Catalogue.ExtractEpisodeData` | random_episode.py:61-68 | a series with no row yields the empty dictionary |
| `Catalogue.FindTitleAppend` | random_episode.py:64 | appending a row does not move the first match of a title already present, and a new title is found at the appended row |
| `Catalogue.AddRowShape` | random_episode.py:101-112 | a duplicate changes nothing; otherwise the old rows stay unchanged and in order, followed by one row holding the title-cased name, Seasons equal to the number of dictionary entries, and a text that decodes to the counts |
| `Catalogue.LookupAfterAdd` | random_episode.py:107-112 | after an add, looking up the stored title yields exactly the dictionary that was added |
| `Catalogue.AddKeepsOtherLookups` | random_episode.py:107-112 | an add changes the lookup of no other title, and of no title already present |
| `Catalogue.AddKeepsTitlesUnique` | random_episode.py:104-108 | when the name is typed in title case, an add keeps all Titles distinct |
| `Catalogue.CaseVariantIsNotADuplicate` | random_episode.py:104-108 | with "Foo" stored, adding "foo" passes the duplicate check and stores a second row titled "Foo" |
| `Catalogue.RepeatedAddOfUntitledName` | random_episode.py:104-108 | a name not in title case passes the duplicate check again after being added, and is appended again |
| `Selector.Randomizer` | random_episode.py:70-76 | an empty dictionary gives no draw; otherwise the season is a key and the episode lies in 1..count; a count below 1 leaves an empty range; with all counts positive a draw always succeeds |
| `UserInput.CollectEpisodeCounts` | random_episode.py:130-138 | the entry succeeds exactly when the season count is positive and each season got a positive answer, and then holds those answers in order; anything else aborts the whole entry |
| `UserInput.FirstConfirmed` | random_episode.py:46-54 | the accepted candidate is confirmed and no earlier one was; with none confirmed, none is accepted |
| `UserInput.ChooseCandidate` | random_episode.py:46-59 | the confirmation loop stops at exactly the first confirmed candidate |
| `EpisodePickerApp.EpisodePicker.constructor` | random_episode.py:21-23 | start-up loads the stored rows (none for a new file) and fills the dropdown as a refresh does |
| `EpisodePickerApp.EpisodePicker.RefreshDropdown` | random_episode.py:143-150 | the dropdown lists the titles in ascending order; the selection is the least title, or "" for an empty catalogue; the rows are untouched |
| `EpisodePickerApp.EpisodePicker.AddToDatabase` | random_episode.py:101-113 | the new rows are the old rows with the append-if-absent rule applied; an add refreshes the dropdown, a rejected add changes nothing |
| `EpisodePickerApp.EpisodePicker.ManualEntry` | random_episode.py:124-141 | an empty name or an invalid entry writes nothing; a valid one adds the entered counts under that name; the result says whether a row was added, and an add refreshes the dropdown while no add leaves it as it was |
| `EpisodePickerApp.EpisodePicker.SearchOnline` | random_episode.py:115-122 | an empty search, no confirmed candidate, or a show without seasons writes nothing; otherwise the first confirmed show's counts are added under the search term; the result is true exactly when a row was added, and an add refreshes the dropdown while no add leaves it as it was |

## Left out

- The tkinter window, buttons, message boxes and the result label: this is presentation. Dialog answers are parameters, and error messages are not modelled.
- `pick_random_episode` and `pick_random_series`: they are glue around the modelled lookup and `Randomizer`, plus a `random.choice` over the titles, and they only set GUI state.
- The HTTP calls to the show-metadata service and their JSON: this is network I/O. A search is given as the user's confirm answers plus a function from candidate to its per-season counts. A network error is treated like a search with no candidates. The premiere and end years shown in the confirmation prompt are not modelled. Also left out: a candidate with no premiere date raises `AttributeError` before the user is asked, which ends the search with nothing written (a `confirms` sequence that stops before that candidate gives the same outcome).
- Reading and writing the spreadsheet through pandas: this is file I/O. The store is the in-memory row sequence. Not modelled: pandas reading a one-season "10" back as a number, and `load_database` substituting an empty catalogue after a read error (an add would then overwrite the file with a single row).
- The probability distribution of both draws, including the non-uniformity of the two-stage draw: the verifier proves which results are possible, not how likely they are.
- Parsing the dialogs' free text with `int()`: manual-entry answers start as already-parsed integers, and a cancelled dialog is modelled as running out of answers.
- `EpisodeCodec.ParseInt`: underscores between digits, non-ASCII digits, and surrounding whitespace are not modelled, because `split()` never leaves whitespace in a piece and `str()` never writes the others.
- `EpisodeCodec.IsSpace`: whitespace outside the Latin-1 range is not treated as whitespace.
- `TitleText.TitleCase`: only ASCII letters are cased, so non-ASCII letters are left as they are and end a word, and Unicode title-case mappings are not modelled.
- Episode counts that the metadata service reports as missing (null) are not modelled. Counts are integers.
- The unused `max_attempts` setting, and lost updates when two processes rewrite the file at once (the program is single-user and sequential).
