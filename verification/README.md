# RecipeSlide core, modelled in Dafny

RecipeSlide is a browser app that stores cooking recipes written in Markdown and
shows each one as a deck of slides for use while cooking. This project models
its core logic as pure Dafny functions over immutable data and proves
properties of that logic:

- **Slide segmentation** (`parseToSlides`, module `MarkdownParser`). The text is split on `'\n'`.
  A heading line (`#`, `##` or `###` followed by whitespace) or a horizontal rule (`---`, `***`,
  longer runs too) ends the slide being collected. Rules are dropped and every other line is kept.
  The model stops at the raw markdown of each slide; rendering it to HTML is left out.
- **Ingredient extraction** (`extractIngredients`, module `MarkdownParser`). A line-by-line scanner
  opens a section at a heading that names "Ingredients", "材料" or "用意するもの" (ASCII case
  ignored). Any other heading closes the section, and while it is open the text of each `-`/`*`
  bullet is collected, trimmed. The three regular expressions involved are modelled exactly,
  backtracking included, and a lemma relates each model to a literal reading of its pattern.
- **The board and the edit form** (module `Recipes`):
  - the category / favorites / search filter over the recipe list, with its initial state and the
    lower-casing of the search text;
  - the favorite toggle of the slide view, which returns the store update it would issue;
  - saving the edit form: it trims and validates the text, takes the title from the first
    `# heading` line (the leftmost match of `/^#\s+(.+)$/m`), and produces either an add request
    or an update request.
- **The kitchen timer** (module `Timer`): presets, start/pause, reset, the once-a-second countdown
  with its alarm, and the `mm:ss` display.

Module `Text` holds the JavaScript string primitives the code uses:

- the `\s` class, which is also what `trim` strips;
- `split('\n')`, `join('\n')` and `trim`;
- ASCII `toLowerCase` and `includes`;
- `toString` and `padStart` on non-negative integers.

Module `Wrappers` holds `Option` and `Result`.

The record store (IndexedDB through Dexie) is not part of this model. What the app asks of it
is returned as a `Recipes.StoreCall` value: an add with the new record, or an update of a record
id with the fields to merge.

## Model

| member | source | states |
|---|---|---|
| Text.Split | js/markdown-parser.js:21 | `split('\n')` yields at least one piece; no piece holds a newline; joining the pieces with newlines gives the text back |
| Text.TrimSpec | js/app.js:337 | `trim` leaves a contiguous piece of the text with only whitespace cut on either side; the result is empty exactly when the text is all whitespace, and otherwise it neither starts nor ends with whitespace |
| MarkdownParser.HeadingPattern | js/markdown-parser.js:26 | the heading test holds exactly when one to three '#' are directly followed by a whitespace character |
| MarkdownParser.FeedAllSpec | js/markdown-parser.js:25-38 | the loop's invariant: the slides pushed so far, followed by the buffer, are exactly the non-rule lines in order; no pushed slide is empty; no slide or buffer holds a rule or a heading past its first line |
| MarkdownParser.Fragments | js/markdown-parser.js:39-41 | after the final push of a non-empty buffer, the slides' lines concatenate to the non-rule lines, and every slide is non-empty with that shape |
| MarkdownParser.ParseToSlides | js/markdown-parser.js:3-41 | the empty text has no slides, and no text has more slides than lines |
| MarkdownParser.SlidesRestoreLines | js/markdown-parser.js:3-41 | splitting every slide back on newlines and concatenating gives the input's lines without the horizontal rules, in order: nothing else is dropped, duplicated or moved |
| MarkdownParser.SlidesShape | js/markdown-parser.js:25-41 | no slide contains a horizontal rule, and a heading is only ever the first line of its slide |
| MarkdownParser.NoSlidesIff | js/markdown-parser.js:4-41 | there are no slides exactly when the text is empty or every line is a horizontal rule |
| MarkdownParser.SingleSlideWithoutBoundaries | js/markdown-parser.js:21-41 | a non-empty text without heading or rule lines is a single slide holding the whole text |
| MarkdownParser.FragmentsAfterRule | js/markdown-parser.js:27-37 | one more line that is a horizontal rule changes no slide and adds none |
| MarkdownParser.FragmentsNewSlide | js/markdown-parser.js:26-37 | one more line that is the first line, a heading, or the line right after a rule becomes a new slide of its own |
| MarkdownParser.FragmentsSameSlide | js/markdown-parser.js:26-37 | one more line that is none of those and is no rule joins the last slide; with the two lemmas above this fixes the slides of every list of lines, so a slide begins only at a heading, at the first line, or after a rule |
| MarkdownParser.LinesJoinUntilHeading | js/markdown-parser.js:21-41 | two lines that are no boundary stay one slide up to the next heading: "a\nb\n# c" gives "a\nb" and "# c" |
| MarkdownParser.LineBeforeHeading | js/markdown-parser.js:25-41 | a line that is not a rule, followed by a heading, gives two slides, the line and the heading; with the empty line this is "\n# A" giving an empty slide and then "# A" |
| MarkdownParser.RuleOnlyNoSlides | js/markdown-parser.js:27-41 | a text that is a single horizontal rule has no slides |
| MarkdownParser.ConsecutiveBoundaries | js/markdown-parser.js:29-37 | a rule and then a heading add no empty slide between them: a line, a rule and a heading give exactly the line's slide and the heading's slide |
| MarkdownParser.OpenerPattern | js/markdown-parser.js:59 | the section-opener test holds exactly when the line is one to three '#', then optional whitespace, then a label (ASCII case ignored) |
| MarkdownParser.BulletPattern | js/markdown-parser.js:72-74 | a line yields a bullet capture exactly when it is a '-' or '*', a non-empty run of whitespace, then a non-empty rest free of line terminators; the trimmed capture is the trimmed text after the marker |
| MarkdownParser.ScanLinesSpec | js/markdown-parser.js:55-77 | after any prefix of the lines, the scan's flag says whether some opener occurred with no closing heading after it, and its items are exactly the bullet items that occurred while a section was open, in order |
| MarkdownParser.NoIngredientsWithoutOpener | js/markdown-parser.js:49-80 | a text with no opener line has no ingredients, whatever bullet lists it holds |
| MarkdownParser.ClosedSectionExcluded | js/markdown-parser.js:64-68 | a heading that is not an opener closes the section, and bullets after it add nothing until another opener |
| MarkdownParser.SectionsConcatenate | js/markdown-parser.js:59-62 | an opener reopens the scan whatever came before, so the items of two parts joined at an opener are the items of the first followed by those of the second |
| MarkdownParser.ExtractIngredients | js/markdown-parser.js:49-80 | there are never more ingredients than lines |
| MarkdownParser.ItemsFromBullets | js/markdown-parser.js:57-77 | every ingredient is the trimmed capture of one of the text's bullet lines, and that line is neither an opener nor a heading |
| MarkdownParser.OpenerInsideSection | js/markdown-parser.js:59-62 | an opener is tested before the closing heading test, so it opens the section, or keeps it open, and the items collected so far stay |
| MarkdownParser.HeadingSpacing | js/markdown-parser.js:59-66 | the opener needs no whitespace after the '#' run but a closing heading does: "##材料" opens a section and "#作り方" is ignored |
| Recipes.FilterRecipes | js/app.js:392-406 | the board never shows more recipes than it is given |
| Recipes.Passes | js/app.js:392-406 | a recipe passes when its category is the selected one or "all" is selected, it is a favorite or favorites are not required, and the search text is empty or occurs in its lower-cased title |
| Recipes.FilterCounts | js/app.js:392-406 | each recipe that passes all three tests is shown as often as it occurs in the list, and every other recipe is not shown |
| Recipes.FilterIsSubsequence | js/app.js:392-406 | the shown recipes keep the order of the list |
| Recipes.FilterAppend | js/app.js:392-406 | filtering two lists joined together gives the shown recipes of the first followed by those of the second |
| Recipes.FilterIdempotent | js/app.js:392-406 | filtering the shown recipes again changes nothing |
| Recipes.InitialFilterShowsAll | js/app.js:9-13 | the initial filter (all categories, not favorites only, empty search) shows every recipe in order |
| Recipes.ApplyFilterEvent | js/app.js:156-179 | typing changes only the search text; a chip click never changes the search text, and a category chip leaves the favorites switch alone |
| Recipes.SearchStaysLower | js/app.js:157 | the search text the filter keeps is always lower case |
| Recipes.ChipClicks | js/app.js:161-179 | a category chip selects its category and changes nothing else; the favorite chip flips the favorites switch and nothing else, so a second click restores the filter; any other chip changes nothing |
| Recipes.SearchIgnoresCase | js/app.js:156-159 | after the user types a query, a recipe passes the search test exactly when the lower-cased query is empty or occurs in the lower-cased title; the category and favorite tests are unchanged |
| Recipes.SearchCaseBlind | js/app.js:157 | queries that differ only in ASCII case give the same filter |
| Recipes.SearchExample | js/app.js:157 | typing "CURRY" finds "Curry Rice" |
| Recipes.FindIndex | js/app.js:185 | `find` returns the first recipe with the given id, or none when no recipe has it |
| Recipes.ToggleFavorite | js/app.js:182-194 | the toggle keeps the list's length and changes nothing but favorite flags |
| Recipes.ToggleFlipsOnlyCurrent | js/app.js:182-194 | with unique ids, only the current recipe's flag flips and every other recipe is unchanged; an update is sent exactly when that recipe exists, and it carries the new flag |
| Recipes.ToggleTwice | js/app.js:182-194 | toggling twice restores the list |
| Recipes.ToggleWithoutCurrent | js/app.js:183 | with no current recipe, or the falsy id 0, the toggle changes nothing and asks nothing of the store |
| Recipes.TitleAt | js/app.js:347 | a match of the title pattern at a position captures a non-empty text with no line terminator |
| Recipes.TitlePattern | js/app.js:347 | the title test at a position succeeds exactly when the literal pattern matches there ('#', a non-empty whitespace run, then a non-empty capture without line terminators that ends at one or at the end of the text), and the capture is that of the match with the longest whitespace run, as backtracking from the greedy `\s+` finds it |
| Recipes.DeriveTitle | js/app.js:347-348 | the derived title is always a non-empty single line |
| Recipes.TitleIsLeftmostMatch | js/app.js:347-348 | the title is the capture at the leftmost line start where the pattern matches; with no match it is the default title |
| Recipes.DoubleHashNoTitle | js/app.js:347 | a "##" line never supplies the title |
| Recipes.LeadingTitle | js/app.js:347-348 | a text that begins with '#', whitespace and a line starting with a non-space character has that line as its title, whatever follows |
| Recipes.BareHashTakesNextLine | js/app.js:347 | because `\s+` crosses the newline, a bare "#" line takes the next line as the title |
| Recipes.Submit | js/app.js:336-365 | a save is refused exactly when the text is all whitespace, and a successful save is an update exactly when the id field holds a non-zero id |
| Recipes.SubmitValidates | js/app.js:336-343 | a save is refused exactly when the text is all whitespace; otherwise the text sent to the store is the trimmed, non-empty text |
| Recipes.SubmitShapes | js/app.js:350-365 | a non-zero id becomes an update of exactly title, text, category and update time; no id or id 0 becomes a new, non-favorite record created and updated at the same time |
| Recipes.ResaveKeepsText | js/app.js:336-365 | saving a stored text again unedited keeps both its text and its title |
| Timer.Step | js/app.js:234-254 | only a tick on a running timer with at most one second left rings, and it leaves the timer stopped; other events never ring, and a running result keeps the count; a tick takes one second off a running timer only |
| Timer.PresetAndResetStop | js/app.js:234-254 | a preset stops the timer and sets its count, reset stops it at zero, whatever the state and without ringing |
| Timer.StepValid | js/app.js:532-556 | every event keeps the count non-negative, and a running timer always has time left |
| Timer.InitialValid | js/app.js:23-24 | the timer starts stopped at zero, a state the invariant allows |
| Timer.RunValid | js/app.js:234-254 | any sequence of events from such a state keeps that invariant |
| Timer.CountDown | js/app.js:539-548 | a running timer loses one second per tick without ringing, and rings exactly once, stopped at zero, on the tick that uses its last second |
| Timer.PresetRings | js/app.js:234-248 | a preset of n seconds, then start, then n ticks ring exactly once and leave the timer stopped at zero |
| Timer.PauseResume | js/app.js:242-248 | pausing and resuming gives back the running timer unchanged |
| Timer.StartWithoutTime | js/app.js:533 | start does nothing when no time is set |
| Timer.Display | js/app.js:558-564 | minutes and seconds are shown as decimal digits, seconds exactly two, minutes at least two |
| Timer.DisplayReadsBack | js/app.js:558-564 | read back, the display gives the count: sixty times the minutes plus the seconds, with the seconds below sixty |
| Timer.DisplayInjective | js/app.js:558-564 | different counts show differently |
| Timer.DisplayWidth | js/app.js:558-564 | under 100 minutes the minutes take exactly two digits |

## Left out

- Rendering: `marked.parse` turns each slide into HTML. That library is not part of this model, so `ParseToSlides` returns the raw markdown of each slide.
- The record store in js/db.js (IndexedDB through Dexie) is not part of this model. Store requests are returned as values. A failing store call is not modelled, nor is the reload that follows a save.
- DOM updates, view switching, alerts, the slider, the settings and the wake lock are left out. They have no logic beyond the state modelled here.
- `setInterval` timing is left out. Each firing of the interval is a `Tick` event, and a stopped timer ignores ticks because no interval then exists.
- Recipes.SearchIgnoresCase: `toLowerCase` is modelled for ASCII letters only. Full Unicode case mapping is not modelled. The opener's `/i` flag ignores ASCII case only, and that is modelled exactly.
- Recipes.SubmitShapes: the two `new Date()` readings of a new record are taken as one instant `now`.
- Recipes.Submit: the hidden id field is taken as already parsed, with none for an empty field. `parseInt` of text that is not a number is not modelled.
- Timer.Step: preset times are non-negative whole numbers. A preset whose `data-time` does not parse is not modelled.
- Timer.Display: it takes a non-negative count. Those are the only counts a valid timer holds (`Timer.RunValid`), so the display of a negative count is not modelled.
- The favorite chip: its `active` class and the filter's favorites flag are taken to stay in step. They start that way and only the chip changes them, so a click flips the flag.
- Recipes.ToggleFavorite: the local flag is changed together with the store request. The model does not keep the ordering the source has, where the local change waits for the store call to finish.
- Deleting recipes, the shopping list screen, the form reset and the category labels on cards are outside the modelled core.
