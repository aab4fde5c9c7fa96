# Cell rewriter and year bumper

This project models two small text-rewriting scripts and proves properties of them.

- **Cell rewriter** (`transform_data.py`). An ordered table of 23 literal `(old, new)` rules is applied to every cell of every CSV row. Each rule is Python's `str.replace`, working on the text the previous rule left behind.
  - `str_replace.dfy` (module `StrReplace`) models `str.replace` for a non-empty key. It also defines `Count`, `Split` and `Join`, which play the parts of `str.count`, `str.split` and `str.join`. The source calls none of these three: they only state the length law and pin down `replace`.
  - `transform_data.dfy` (module `TransformData`) models the rule table, the fold of the rules over one cell, and the nested row/cell/rule loop. The loop is a method proved against that fold.
- **Year bumper** (`update_years.py`). One pass of `re.sub(r'\b20\d{2}\b', add_four_to_year, content)` replaces each word-bounded `20dd` by `str(int(match) + 4)`.
  - `update_years.dfy` (module `Years`) models the pass as a recursive scanner, `Rewrite`. The scanner is proved equal to an independent, position-by-position reference output, `Expected`. The consequences are then proved from that reference: length preserved, everything outside a match kept, each match bumped, locality at non-word characters.
  - `years_examples.dfy` (module `YearsExamples`) holds worked inputs, proved from those theorems.

The document is the list of rows the CSV reader yields. The text is the file's content decoded as Latin-1, so every character is at most U+00FF. `\w` is Python's Unicode word class restricted to that range, and `\d` is the ASCII digits.

## Model

| member | source | states |
|---|---|---|
| StrReplace.ReplaceAll | transform_data.py:46 | `s.replace(old, new)` for a non-empty `old`; no contract of its own, pinned by ReplaceAllIsJoinOfSplit, SplitIsLeftmost and JoinOfSplitRestores |
| StrReplace.Count | transform_data.py:46 | specification device, not called by the source: the number of occurrences `replace` rewrites, as `str.count` counts them; used in ReplaceAllLength and OccursIffCountPositive |
| StrReplace.Split | transform_data.py:46 | specification device, not called by the source: the pieces between those occurrences, as `str.split`; one more piece than `Count`, with the cuts pinned by SplitIsLeftmost and JoinOfSplitRestores |
| StrReplace.Join | transform_data.py:46 | specification device, not called by the source: `sep.join(pieces)`, the inverse of `Split` by JoinOfSplitRestores |
| StrReplace.ReplaceAllIsJoinOfSplit | transform_data.py:46 | `cell.replace(old, new)` equals `new.join(cell.split(old))`: the text between the cut occurrences is kept and each cut occurrence becomes `new` |
| StrReplace.SplitIsLeftmost | transform_data.py:46 | the cuts are the leftmost non-overlapping occurrences: no occurrence starts inside a piece and reaches the occurrence ending it, and the last piece holds none |
| StrReplace.SplitPiecesHoldNoKey | transform_data.py:46 | no occurrence of the key is left wholly inside a piece between the cuts |
| StrReplace.SplitFirstIsPrefix | transform_data.py:46 | the first piece is a prefix of the text and, when cut, is followed there by the key |
| StrReplace.JoinOfSplitRestores | transform_data.py:46 | joining the split pieces with the key itself gives back the original text |
| StrReplace.ReplaceByItselfIsIdentity | transform_data.py:46 | a rule whose new text equals its old text changes nothing |
| StrReplace.ReplaceAllLength | transform_data.py:46 | the result's length is `len(s) + count * (len(new) - len(old))` |
| StrReplace.OccursIffCountPositive | transform_data.py:46 | `old in s` holds exactly when `s.count(old)` is positive |
| StrReplace.ReplaceAbsentKey | transform_data.py:46 | a key that does not occur leaves the text unchanged |
| StrReplace.ReplaceAtOccurrence | transform_data.py:46 | an occurrence at the front is replaced, and the scan resumes after it in the remaining text |
| StrReplace.InsertedTextNotRescanned | transform_data.py:46 | the inserted text is not rescanned: "a" with rule "a" -> "aa" gives "aa" |
| TransformData.Replacements | transform_data.py:8-32 | the 23 (old, new) pairs in declaration order, which is the dict's iteration order; keys non-empty by ReplacementsWellFormed |
| TransformData.ApplyRules | transform_data.py:45-46 | the inner rule loop: every rule, in table order, applied to the previous rule's result; no contract of its own, pinned by ApplyRulesChain, SkipAbsentRule, NoKeyOccursIsIdentity and WholeCellHit |
| TransformData.TransformRows | transform_data.py:41-49 | one output row per input row, in order; each output row has as many cells as its input row, in the same positions; each cell holds the input cell with every rule applied in table order |
| TransformData.ApplyRulesChain | transform_data.py:45-46 | applying a rule list split in two is applying the first part, then the second part to its result |
| TransformData.SkipAbsentRule | transform_data.py:45-46 | a rule whose key does not occur in the current text is a no-op |
| TransformData.NoKeyOccursIsIdentity | transform_data.py:45-46 | a cell in which no key occurs is left unchanged; in particular an empty rule list changes nothing |
| TransformData.RuleOrderMatters | transform_data.py:45-46 | rule order matters: ("A","B"),("B","C") turns "A" into "C", the reverse order gives "B" |
| TransformData.GmbHRuleShortens | transform_data.py:31 | the `" GmbH" -> ""` rule shortens a cell by five characters per occurrence |
| TransformData.ReplacementsWellFormed | transform_data.py:8-32 | every key of the table is non-empty |
| TransformData.CannotOccurIsSound | transform_data.py:8-32 | proof support for the table examples, not a step of the program: a key longer than the cell, or whose first or last character is missing from it, does not occur in it |
| TransformData.NoneOccurBetweenMeansAbsent | transform_data.py:8-32 | proof support for the table examples, not a step of the program: rules whose keys all pass the `CannotOccur` test against a cell have keys absent from it |
| TransformData.KeysAbsentIsIdentity | transform_data.py:45-46 | a run of rules none of whose keys occurs in the cell leaves it unchanged |
| TransformData.WholeCellHit | transform_data.py:45-46 | a cell equal to one rule's key, in which no earlier key occurs, ends as that rule's value when no later key occurs in the value |
| TransformData.AmericaExample | transform_data.py:9 | "America" becomes "Malaysia" |
| TransformData.LowerCaseExample | transform_data.py:8-32 | matching is case-sensitive: "america" is left unchanged by the whole table |
| TransformData.PlantCodeExample | transform_data.py:11 | "1010US" becomes "1010MY" |
| TransformData.MenBasicsExample | transform_data.py:19 | "Men basics" becomes "Green Ink" |
| TransformData.WomenBasicsExample | transform_data.py:18 | "Women basics" becomes "Red Ink"; the "Men basics" key does not occur in it, since its "men basics" is lower case |
| Years.IsDigit | update_years.py:14 | `\d` on Latin-1 text: the ASCII digits only |
| Years.IsWordChar | update_years.py:14 | `\w` on Latin-1 text; no contract of its own, it is the character class the boundaries test |
| Years.MatchAt | update_years.py:14 | the pattern `\b20\d{2}\b` at one position; no contract of its own, pinned by MatchesDisjoint, NoMatchAcrossCut and the untouched examples |
| Years.ParseInt | update_years.py:9 | `int()` on the matched text; no contract of its own, pinned by ParseShowNat and AddFourOnMatch |
| Years.ShowNat | update_years.py:10 | `str()` of a natural number: a non-empty run of digits; pinned by ParseShowNat and ShowNatFourDigits |
| Years.AddFourToYear | update_years.py:8-10 | `add_four_to_year`; no contract of its own, pinned by AddFourOnMatch |
| Years.Rewrite | update_years.py:14 | the left-to-right `re.sub` scan from one position; no contract of its own, pinned by RewriteSpec |
| Years.UpdateYears | update_years.py:14 | `re.sub(r'\b20\d{2}\b', add_four_to_year, content)`; no contract of its own, pinned by UpdateYearsSpec and UpdateYearsEffect |
| Years.ParseShowNat | update_years.py:9-10 | `int(str(n)) == n` for every natural number |
| Years.ShowNatFourDigits | update_years.py:10 | a number from 1000 to 9999 prints as exactly its four decimal digits |
| Years.AddFourOnMatch | update_years.py:8-10 | on a matched token, `int` cannot fail; the callback returns the four-digit form of the year plus four, a year from 2004 to 2103 |
| Years.MatchesDisjoint | update_years.py:14 | two matches of `\b20\d{2}\b` never overlap |
| Years.ExpectedIsPointwise | update_years.py:14 | the reference output is as long as the input, and each position holds the bumped digit inside a match and the input character elsewhere |
| Years.RewriteSpec | update_years.py:14 | the scan from any position no match straddles succeeds and agrees with the reference output from there on |
| Years.UpdateYearsSpec | update_years.py:14 | the whole `re.sub` pass never raises and returns exactly the reference output |
| Years.UpdateYearsEffect | update_years.py:8-14 | the output is as long as the input; every character outside a match is unchanged; each match `20dd` is replaced by the digits of its value plus four |
| Years.NoMatchUnchanged | update_years.py:14 | a text with no match is returned unchanged |
| Years.NoMatchAcrossCut | update_years.py:14 | no match straddles a position just before or just after a non-word character |
| Years.MatchShiftLeft | update_years.py:14 | left of such a cut, `a + b` matches where `a` does, bumping to the same text |
| Years.MatchShiftRight | update_years.py:14 | right of such a cut, `a + b` matches where `b` does, bumping to the same text |
| Years.ExpectedConcat | update_years.py:14 | text cut at a non-word character is rewritten piece by piece |
| Years.ExpectedWithoutTwo | update_years.py:14 | text without the digit 2 is kept as it is |
| Years.ExpectedLoneYear | update_years.py:8-14 | a text that is a single match becomes its bumped year |
| YearsExamples.InvoiceExample | update_years.py:14 | "Invoice 2019, ref 2021" becomes "Invoice 2023, ref 2025" |
| YearsExamples.RangeExample | update_years.py:14 | "2019-2020" becomes "2023-2024": a hyphen is a word boundary |
| YearsExamples.EachPassAddsFour | update_years.py:14 | one pass turns "2019" into "2023", not "2027"; only a second pass gives "2027" |
| YearsExamples.Year2099 | update_years.py:8-14 | "2099" becomes "2103" |
| YearsExamples.GluedYearsUntouched | update_years.py:14 | "20191234", "x2019", "2019a" and "_2019" are not matches and pass through unchanged |
| YearsExamples.OtherCenturiesUntouched | update_years.py:14 | "1999" and "3020" are never changed |

## Left out

- Opening, reading and writing the files, and their hard-coded names (transform_data.py:4-5, 35-36; update_years.py:4-5, 17-18). The content is a parameter and the result a return value.
- CSV parsing and quoting by `csv.reader` and `csv.writer`. The document is the list of rows, each a list of cell strings.
- UTF-8 and Latin-1 decoding and encoding. Text is a sequence of characters.
- The `print` calls, which only report progress.
- The general regular-expression engine. Only the fixed pattern `\b20\d{2}\b` is modelled, by a hand-written scanner.
- `str.replace` with an empty old string. No key in the table is empty, so `ReplaceAll` requires a non-empty key.
- Years.IsWordChar: characters above U+00FF are treated as non-word characters. A Latin-1 decode never produces them.
- Years.ParseInt: models `int()` on strings of ASCII digits only. The signs, surrounding whitespace and underscores that `int()` also accepts never occur in a match.
- TransformData.TransformRows: it returns the rows instead of handing each one to the writer as it is built, so interleaving with the output file is not modelled.
