# Verse-translation text layer, modelled in Dafny

The repository is a set of Python scripts around machine-drafted verse translations.
Models draft and polish English verses. Deterministic rules then clean the drafts up.
Other scripts extract reference texts from OSIS XML, propose and apply capitalisation
edits, and render the result as plain text, Markdown or USFM. This project models that
deterministic layer, script by script:

- `scripts/polish.py`: the whitespace rule, the drift guard, the five enforcement rules,
  the final invariant check and the row loop of `main` (module `Polish`, with one module
  per rule: `Whitespace`, `LordCaps`, `BetweenFrom`, `CompoundNumbers`, `Reverential`).
- `scripts/kjv_pronouns.py`: the reference-text loader, the four-way classifier,
  `cap_all`/`decap_all` and the counting loop of `main` (`KjvPronouns`).
- `scripts/suggest_caps.py`: anchors, confidence, `cap_phrase` and the three loops and
  the dedup loop of `suggest_line` (`SuggestCaps`).
- `scripts/apply_caps.py`: the worksheet reader and the replace pass (`ApplyCaps`).
- `scripts/translate.py`: the two draft validators and the accept-or-raise loop
  (`Translate`).
- `scripts/osis_to_kjv_jsonl.py`: the book table and `osis_id_to_ref` (`OsisRefs`),
  `normalize_text` and the note-skipping walk (`OsisText`), the milestone state machine
  of `parse_osis` and the sorted write of `main` (`OsisParse`, with the class
  `MilestoneReader` holding the four variables the source updates).
- `scripts/render_readable.py` (`Render`), `scripts/jsonl_to_usfm.py` (`Usfm`, with
  `ChapterRuns` for the chapter runs both formatters share) and
  `scripts/oshb_to_jsonl.py` (`Oshb`).

Shared modules model the pieces of Python the scripts lean on:

- `Chars`: ASCII case, whitespace, `strip`, `split` and decimal numerals.
- `Regex`: the small regular-expression language the scripts use, as a backtracking
  matcher.
- `Scan`: `re.sub`, `re.search` and `re.finditer` as a leftmost, non-overlapping,
  left-to-right scan.
- `Words`: whole-word alternations such as `\b(he|him|his|himself)\b`, and the
  re-casing substitutions over them.
- `Jsonl`: JSON objects with string fields, and the lines of a JSONL file.
- `Xml`: element trees with text and tail.
- `Wrappers`: `Option` and `Result`.

Loops that update the script's own state (row, line and verse loops, the milestone
reader, the dedup and suggestion loops) are `method`s with their invariants, proved
equal to a specification function. Small search loops, such as the first-match loop of
`contains_forbidden_archaic`, are recursive functions. The properties the scripts promise are lemmas about those
functions. Exceptions become `Failure` results carrying the error the source raises.
The LLM calls become inputs: a function from reference and text to the returned text.

The two OSIS converters write book codes differently. `osis_to_kjv_jsonl.py` maps "Exod"
to "EXO" through its table (scripts/osis_to_kjv_jsonl.py:24). `oshb_to_jsonl.py` upper-cases the book part and writes
"EXOD". The model keeps both behaviours, and `Oshb.RefFormatsDiverge` states the
difference.

## Model

| member | source | states |
|---|---|---|
| Whitespace.NormalizeSpace | scripts/polish.py:51-52 | the result is the input's words (`s.split()`) joined by single spaces, so it is single-spaced, trimmed, and splits into the same words |
| Whitespace.CollapseWords | scripts/polish.py:52 | collapsing each whitespace run to one space keeps the words `s.split()` finds |
| Whitespace.NormalizeSpaceIdempotent | scripts/polish.py:51-52 | normalising twice is normalising once |
| Whitespace.NormalizedFixed | scripts/polish.py:51-52 | text already single-spaced and trimmed is a fixed point |
| Whitespace.SubKeepsNormalized | scripts/polish.py:174-181 | a substitution whose every replacement is shape-safe keeps normalised text normalised; every rule of the chain is proved through it |
| Polish.LeadingNumberIff | scripts/polish.py:69-70 | `^\d+\s` holds exactly when some non-empty digit prefix is followed by whitespace |
| Polish.SimilarityGuardProperties | scripts/polish.py:59-79 | the guard depends only on the normalised texts; "empty_output" exactly for an empty revision; an accepted revision is non-empty, opens like no heading, note or verse number and, against an original of at least 20 characters, is between 3/5 and 8/5 of its length, both ends included; every revision meeting those conditions is accepted; a rejection carries one of the five reasons |
| Polish.CollapseInternalNewlines | scripts/polish.py:86-88 | the verse becomes its words joined by single spaces, line breaks counting as separators like other whitespace: one trimmed line with no newline |
| Polish.ReplaceSpaceWords | scripts/polish.py:88 | replacing a whitespace string by one space keeps the words of the text |
| Polish.EnforceRulesNormalized | scripts/polish.py:174-180 | the output of the rule chain is single-spaced, trimmed and holds no newline |
| Polish.ApplyEnforcementProperties | scripts/polish.py:91-94 | `apply_enforcement` fails exactly when both "angel of the LORD" and "angel of the Lord" occur after the rules; otherwise it returns the rules' output, which is normalised and newline-free |
| Polish.DecideOffTarget | scripts/polish.py:232 | a row outside the target set is decided without looking at the revision |
| Polish.PolishVerse | scripts/polish.py:252-264 | one row: an accepted revision is taken, and counted as changed only when it differs from the original after normalisation; a rejected one keeps the original and counts as blocked; then the optional enforcement |
| Polish.PolishRow | scripts/polish.py:227-266 | one turn of the loop extends the pass specification by one row, or ends it with the enforcement error |
| Polish.PolishPass | scripts/polish.py:223-266 | the row loop computes the pass specification |
| Polish.CountsBounded | scripts/polish.py:252-261 | changed plus blocked is at most the number of target rows: only target rows are counted, never twice |
| Polish.PolishRecords | scripts/polish.py:263-266 | a completed pass writes one record per row, under the row's reference, and the counters count the changed and blocked decisions |
| Polish.PolishOutputs | scripts/polish.py:227-266 | one record per row under its reference: a non-target row keeps its text, a blocked row keeps the original, an accepted revision replaces it; with enforcement the kept text is put through the rule chain (`EnforceRules`) and is normalised; changed plus blocked never exceeds the targeted rows |
| Polish.PolishMain | scripts/polish.py:223-266 | the script's pass is the specified pass with `similarity_guard`, `normalize_space` and `apply_enforcement` as helpers |
| LordCaps.EnforceLordCapsProperties | scripts/polish.py:128-133 | the rule only upper-cases letters o, r, d, keeps the length and the normalised shape, and leaves no match of any of its four phrases behind |
| LordCaps.EnforceLordCapsIdempotent | scripts/polish.py:128-133 | applying the rule twice is applying it once |
| LordCaps.ApplyReplacesHit | scripts/polish.py:129-132 | every match of a phrase is replaced by its upper-cased form in place |
| LordCaps.ApplyKeepsNonHit | scripts/polish.py:131 | an occurrence the pattern does not match, such as "the Lord" before "GOD", comes out untouched |
| LordCaps.ApplyClears | scripts/polish.py:129-132 | after a rule has run it finds nothing more to rewrite |
| LordCaps.ApplyUpOrd | scripts/polish.py:129-132 | a rule changes nothing but the case of o, r, d |
| BetweenFrom.SeparatedBetweenHit | scripts/polish.py:98 | `\bseparated between\b`, ignoring case, matches exactly the whole phrase and writes "separated" |
| BetweenFrom.DividShape | scripts/polish.py:99 | "divide between" or "dividing between", in any case, becomes lower-case "divid" followed by the ending as written |
| BetweenFrom.LongAShape | scripts/polish.py:101-118 | a match of `\bw0\s+w1\s+([^,;]+?)\s+and\s+w3\s+([^,;]+?)\b` is the opener and `w1` in any case, the first group (non-empty, no comma or semicolon, the shortest after which the rest matches), "and" and `w3` in any case, and the second group, which stops at the first word boundary, with whitespace runs between them |
| BetweenFrom.LongBShape | scripts/polish.py:107-112 | the same for `\bw0\s+([^,;]+?)\s+and\s+w3\s+([^,;]+?)\b` |
| BetweenFrom.LongCShape | scripts/polish.py:119-124 | the same for `\bw0\s+w1\s+([^,;]+?)\s+and\s+([^,;]+?)\b` |
| BetweenFrom.LongAHitIff | scripts/polish.py:101-118 | the first and third long patterns match at an index exactly when the text there has that shape |
| BetweenFrom.LongBHitIff | scripts/polish.py:107-112 | the second long pattern matches exactly where the text has its shape |
| BetweenFrom.LongCHitIff | scripts/polish.py:119-124 | the last long pattern matches exactly where the text has its shape |
| BetweenFrom.DivideBetweenAndBetweenRewrite | scripts/polish.py:101-106 | "to divide between X and between Y" is rewritten to "to divide X from Y", X and Y being the two groups as written |
| BetweenFrom.DivideAndBetweenRewrite | scripts/polish.py:107-112 | "to divide X and between Y" is rewritten to "to divide X from Y" |
| BetweenFrom.SeparatedBetweenAndTheRewrite | scripts/polish.py:113-118 | "separated between X and the Y" is rewritten to "separated X from the Y" |
| BetweenFrom.SeparatedBetweenAndRewrite | scripts/polish.py:119-124 | "separated between X and Y" is rewritten to "separated X from Y" |
| BetweenFrom.EnforceBetweenFromNormalized | scripts/polish.py:97-125 | the six substitutions, in their order, keep normalised text normalised |
| CompoundNumbers.HyphenateShape | scripts/polish.py:136-149 | a match is a tens word, whitespace, "and", whitespace and a units word, each in any case and whole; it becomes the two words as written, joined by a hyphen |
| CompoundNumbers.HyphenateSafe | scripts/polish.py:136-149 | the hyphenated number holds no whitespace and starts and ends as the phrase it replaces |
| CompoundNumbers.EnforceCompoundNumbersNormalized | scripts/polish.py:136-149 | the rule keeps normalised text normalised |
| CompoundNumbers.EnforceCompoundNumbersNoPhrase | scripts/polish.py:136-149 | text without a tens-and-units phrase is unchanged |
| Reverential.EnforceReverentialPronounsProperties | scripts/polish.py:152-171 | with no gate pattern the text is unchanged; with one, exactly the whole-word lower-case he/him/his/himself are capitalised: same length, same text once lower-cased, no lower-case pronoun left |
| Reverential.EnforceReverentialPronounsIdempotent | scripts/polish.py:152-171 | applying the rule twice is applying it once |
| Reverential.EnforceReverentialPronounsNormalized | scripts/polish.py:152-171 | the rule keeps normalised text normalised |
| Reverential.GatedIsCapAll | scripts/polish.py:167-170 | with the gate open the four substitutions together are `cap_all` of scripts/kjv_pronouns.py |
| Reverential.CapWordIsRecase | scripts/polish.py:167-170 | each substitution capitalises every whole-word occurrence of its pronoun and nothing else |
| Words.SubIsRecase | scripts/kjv_pronouns.py:70-73 | a whole-word alternation substitution that re-cases the first letter equals the character-wise reference definition |
| Words.RecaseClearsHits | scripts/kjv_pronouns.py:70-79 | after re-casing, no alternative occurs as a whole word |
| Words.OccursIffHasWord | scripts/kjv_pronouns.py:58-60 | `re.search` of the alternation succeeds exactly when one of the words occurs as a whole word |
| Words.AltHit | scripts/kjv_pronouns.py:33-34 | a match is one of the words occurring whole, and every whole occurrence is a match |
| Words.RecaseEachIsRecase | scripts/polish.py:167-170 | re-casing word by word equals re-casing for the whole alternation |
| KjvPronouns.LoadJsonlMap | scripts/kjv_pronouns.py:40-55 | the loading loop computes the load specification |
| KjvPronouns.LoadMapInserts | scripts/kjv_pronouns.py:54 | a completed load is the map built by inserting every line's entry in order |
| KjvPronouns.LoadMapLastWins | scripts/kjv_pronouns.py:54 | a completed load holds exactly the keys that occur, each with the value of its last line |
| KjvPronouns.LoadMapFailure | scripts/kjv_pronouns.py:47-53 | the load fails exactly when some line is not JSON, lacks the key or lacks the value, and it reports the first such line |
| KjvPronouns.ClassifyMeaning | scripts/kjv_pronouns.py:58-67 | the class is mixed, divine-only, human-only or none exactly as the capitalised and the lower-case pronouns occur as whole words |
| KjvPronouns.CapAllIsRecase | scripts/kjv_pronouns.py:70-73 | `cap_all` capitalises every whole-word lower-case pronoun and changes no other character |
| KjvPronouns.DecapAllIsRecase | scripts/kjv_pronouns.py:76-79 | `decap_all` lower-cases every whole-word capitalised pronoun and changes no other character |
| KjvPronouns.CapAllProperties | scripts/kjv_pronouns.py:70-73 | `cap_all` keeps the length and the lower-cased text and leaves no lower-case pronoun |
| KjvPronouns.DecapAllProperties | scripts/kjv_pronouns.py:76-79 | `decap_all` keeps the length and the lower-cased text and leaves no capitalised pronoun |
| KjvPronouns.CapAllIdempotent | scripts/kjv_pronouns.py:70-73 | `cap_all` twice is `cap_all` once |
| KjvPronouns.DecapAllIdempotent | scripts/kjv_pronouns.py:76-79 | `decap_all` twice is `decap_all` once |
| KjvPronouns.LowPair | scripts/kjv_pronouns.py:36 | each lower-case pronoun with its first letter capitalised is the capitalised pronoun |
| KjvPronouns.CapPair | scripts/kjv_pronouns.py:37 | each capitalised pronoun with its first letter lower-cased is the lower-case pronoun |
| KjvPronouns.CapAllReclassifies | scripts/kjv_pronouns.py:124-132 | after `cap_all` a verse with a lower-case pronoun classifies as divine-only |
| KjvPronouns.DecapAllReclassifies | scripts/kjv_pronouns.py:124-132 | after `decap_all` a verse with a capitalised pronoun classifies as human-only |
| KjvPronouns.KjvText | scripts/kjv_pronouns.py:118-119 | a reference text is present exactly when the reference is mapped to a non-empty text |
| KjvPronouns.RewriteProperties | scripts/kjv_pronouns.py:118-139 | the rewrite only changes case; with a missing, mixed or pronoun-free reference text it is the identity; with a divine-only one no lower-case pronoun remains, and with a human-only one no capitalised pronoun remains |
| KjvPronouns.RewriteIdempotent | scripts/kjv_pronouns.py:124-139 | rewriting again with the same reference text changes nothing |
| KjvPronouns.PronounPass | scripts/kjv_pronouns.py:106-144 | the main loop computes the pass specification |
| KjvPronouns.RunPassIsStepAll | scripts/kjv_pronouns.py:107-111 | a completed pass handled exactly the verse objects among the lines, skipping blank lines |
| KjvPronouns.RunPassFailure | scripts/kjv_pronouns.py:112-116 | the pass fails exactly when some line is not JSON or lacks a reference, and reports the first such line |
| KjvPronouns.FirstStop | scripts/kjv_pronouns.py:112-116 | a failure names the first bad line; a completed pass met none |
| KjvPronouns.StepFacts | scripts/kjv_pronouns.py:118-144 | one verse appends its output line, and one review item when its reference text is mixed, and keeps the counters consistent |
| KjvPronouns.StepAllOutputs | scripts/kjv_pronouns.py:96-161 | one output line per verse in input order, with its rewritten text; one review item per mixed verse; total equals the output count and the sum of missing, divine, human, mixed and none; review targets equal mixed; changed is at most divine plus human |
| KjvPronouns.PassOutputs | scripts/kjv_pronouns.py:106-161 | what a completed pass writes, in terms of the lines it read |
| KjvPronouns.Rerun | scripts/kjv_pronouns.py:106-144 | running the pass on its own output with the same reference texts writes the same verses and review items and counts nothing as changed |
| KjvPronouns.PassRerun | scripts/kjv_pronouns.py:106-144 | the same for the written lines fed back to the script |
| KjvPronouns.OutRefs | scripts/kjv_pronouns.py:121-144 | every verse written keeps its reference |
| KjvPronouns.PronounScript | scripts/kjv_pronouns.py:82-161 | the script fails with the loader's error, or runs the pass over the book with the loaded map |
| SuggestCaps.HasAnchorIff | scripts/suggest_caps.py:9-18 | `has_anchor` holds exactly when LORD, GOD or God occurs as a whole word; "Lord" is not an anchor |
| SuggestCaps.ConfidenceForPronoun | scripts/suggest_caps.py:57-67 | the score, in hundredths, lies between 55 and 95, and is at least 80 when the text has an anchor |
| SuggestCaps.ApplySingleSpanParts | scripts/suggest_caps.py:69-70 | the result is the text before the span, the replacement and the text after it, with the corresponding length |
| SuggestCaps.CapPhraseProperties | scripts/suggest_caps.py:72-73 | `cap_phrase` gives a normalised phrase with the same non-whitespace characters up to case, and capitalises a lower-case first letter |
| SuggestCaps.CapEditsCount | scripts/suggest_caps.py:84-101 | the pronoun loop makes one proposal per whole-word lower-case pronoun of the verse, and none when there is none |
| SuggestCaps.CapEditsSteps | scripts/suggest_caps.py:85-92 | each proposal capitalises the leftmost pronoun of the text it starts from |
| SuggestCaps.CapEditsChain | scripts/suggest_caps.py:92-101 | proposals are cumulative: each starts from the previous one's result, further right |
| SuggestCaps.CapEditsFinal | scripts/suggest_caps.py:84-101 | the last proposal has every pronoun of the verse capitalised and no other change |
| SuggestCaps.NoEditsNoHits | scripts/suggest_caps.py:85-87 | when the loop proposes nothing, re-casing the pronouns changes nothing |
| SuggestCaps.CapEditsAnchored | scripts/suggest_caps.py:81-91 | every proposal keeps the anchor, so it scores between 80 and 95 |
| SuggestCaps.PronounStep | scripts/suggest_caps.py:85-101 | one turn: its proposal is the first of those still to come, and the count of lower-case pronouns drops, so the loop ends |
| SuggestCaps.PronounLoop | scripts/suggest_caps.py:84-105 | the while loop makes exactly the specified pronoun proposals |
| SuggestCaps.PronounPhase | scripts/suggest_caps.py:80-105 | no pronoun proposal without an anchor; with one, the loop's proposals |
| SuggestCaps.TitleStep | scripts/suggest_caps.py:116-129 | one turn of the corrected title loop yields the text rebuilt through the next noun, and the shift grows by that noun's change in length |
| SuggestCaps.TitleLoop | scripts/suggest_caps.py:116-129 | the corrected title loop proposes, for each match, the text with every noun up to it capitalised |
| SuggestCaps.TitlePhase | scripts/suggest_caps.py:112-129 | one title pattern's loop, with its reason, its confidence and kind "title" |
| SuggestCaps.TitleCapUpper | scripts/suggest_caps.py:117-118 | a lower-case title noun is proposed with an upper-case first letter |
| SuggestCaps.SalvationPhase | scripts/suggest_caps.py:132-145 | the salvation loop makes the specified proposals at confidence 85, kind "title" |
| SuggestCaps.SalvationTextsPlaced | scripts/suggest_caps.py:132-145 | each salvation proposal only changes letter case and has "Salvation" as the last word of its match |
| SuggestCaps.OwnedTextsPlaced | scripts/suggest_caps.py:132-145 | the same for any owner list, word and respelling |
| SuggestCaps.OwnedEditExact | scripts/suggest_caps.py:133-136 | one turn of the loop writes the respelling over the last word of its match and changes no other character, because no owner word is as long as the respelled word |
| SuggestCaps.OwnedTextsExact | scripts/suggest_caps.py:132-145 | proposal `j` is the starting text with the respelling over the last word of each of the first `j + 1` matches, every other character unchanged |
| SuggestCaps.SalvationTextsExact | scripts/suggest_caps.py:132-145 | proposal `j` of the salvation loop is the verse with "Salvation" over the last word of each of the first `j + 1` matches of `\b(my\|our\|his\|their)\s+salvation\b`, and every other character unchanged |
| SuggestCaps.DedupPass | scripts/suggest_caps.py:147-155 | the dedup loop with its seen-set computes the dedup specification |
| SuggestCaps.DedupKeys | scripts/suggest_caps.py:147-155 | the kept suggestions have the keys of all of them |
| SuggestCaps.DedupDistinct | scripts/suggest_caps.py:147-155 | no two kept suggestions share a (ref, suggested) key |
| SuggestCaps.DedupFirst | scripts/suggest_caps.py:147-155 | each kept suggestion is the first with its key, and the kept ones keep their input order |
| SuggestCaps.SuggestLine | scripts/suggest_caps.py:75-155 | `suggest_line` computes the specification: pronouns, then both title loops, then salvation, then dedup |
| SuggestCaps.AllSuggestionsWellMade | scripts/suggest_caps.py:93-144 | every suggestion carries the input ref and text; pronoun ones need an anchor and score 80 to 95; title ones score 92, 88 or 85 |
| SuggestCaps.SuggestLineProperties | scripts/suggest_caps.py:75-155 | the result is well made, has distinct suggested texts, and covers every key proposed |
| SuggestCaps.StaleTexts | scripts/suggest_caps.py:116-129 | the title loop as written: the spans listed once, applied to a working text that earlier replacements changed |
| SuggestCaps.StaleMisplaced | scripts/suggest_caps.py:116-129 | when the first phrase is shorter than its span, the second proposal as written differs from the intended one |
| SuggestCaps.TitlesMisplaced | scripts/suggest_caps.py:116-129 | the same for the title patterns: a noun such as "high  tower", with two spaces, shifts the next one |
| SuggestCaps.StaleAgrees | scripts/suggest_caps.py:116-129 | when no replacement changes its span's length, the loop as written gives the intended proposals |
| SuggestCaps.TitlesAgree | scripts/suggest_caps.py:116-129 | nouns whose words are single-spaced keep their length, so there the loop as written is the intended one |
| ApplyCaps.Approval | scripts/apply_caps.py:19-27 | a row approves exactly when its stripped, upper-cased decision is APPROVE and its stripped ref is not blank, and then maps that ref to its suggested text |
| ApplyCaps.ReadApproved | scripts/apply_caps.py:6-28 | the reading loop computes the approved-map specification |
| ApplyCaps.ApprovedMapProperties | scripts/apply_caps.py:15-27 | the worksheet is refused exactly when a required column is missing; otherwise the map holds exactly the approved refs, each with the last approving row's text |
| ApplyCaps.ApplyObj | scripts/apply_caps.py:39-45 | an approved ref gets the approved text and nothing else changes; other objects are unchanged; the object changes exactly when its text does |
| ApplyCaps.Apply | scripts/apply_caps.py:30-47 | the replace loop computes the pass specification |
| ApplyCaps.ApplyAllOutputs | scripts/apply_caps.py:30-47 | one object per verse object in order, each replaced or kept; total counts them all; changed counts exactly those whose text differs, so changed is at most total |
| ApplyCaps.ApplyProperties | scripts/apply_caps.py:34-46 | the pass stops exactly when a line is not JSON; otherwise it writes the specified objects |
| ApplyCaps.ApplyObjIdempotent | scripts/apply_caps.py:40-45 | an object passed through once is unchanged by a second pass |
| ApplyCaps.ApplyIdempotent | scripts/apply_caps.py:30-47 | running the pass again on the book it wrote writes the same book and counts no change |
| ApplyCaps.ApplyCapsMain | scripts/apply_caps.py:49-54 | the script fails on a bad worksheet, or else on a bad book line, and otherwise yields the applied book and counts |
| Translate.FirstContained | scripts/translate.py:23-28 | the first word in list order that is a substring, or none exactly when no word is |
| Translate.ContainsForbiddenArchaicProperties | scripts/translate.py:23-28 | no form found exactly when none occurs in the lower-cased text; a form found is the first in list order |
| Translate.EyeHoldsYe | scripts/translate.py:24-26 | plain substring search: "eye" trips "ye" |
| Translate.CheckLexicalLocks | scripts/translate.py:30-35 | a phrase is reported exactly when the ref is locked and its phrase is not a case-sensitive substring |
| Translate.VetProperties | scripts/translate.py:79-90 | a draft is written, as it is, exactly when no forbidden form occurs in any case and its locked phrase occurs; otherwise the first failing check's error |
| Translate.TranslateMain | scripts/translate.py:55-90 | the main loop computes the run specification |
| Translate.TranslateLineWritten | scripts/translate.py:56-90 | a written line was a verse object with ref and source, and its record is the stripped draft that passed both checks |
| Translate.TranslateOutputs | scripts/translate.py:55-90 | a completed run writes one record per line, in order, under the line's ref, holding the checked draft |
| Translate.TranslateRecordsClean | scripts/translate.py:79-90 | every written record is free of forbidden forms and holds its locked phrase |
| OsisRefs.CodesAreCodes | scripts/osis_to_kjv_jsonl.py:21-90 | every book code in the table is non-empty and holds no space |
| OsisRefs.OsisIdToRefProperties | scripts/osis_to_kjv_jsonl.py:105-124 | the id is refused exactly when it has fewer than three parts, an unknown book or a non-numeral chapter or verse; otherwise it becomes the book's code with the numbers |
| OsisRefs.OsisIdToRefExtra | scripts/osis_to_kjv_jsonl.py:109-114 | parts after the third are ignored |
| OsisRefs.OsisIdToRefNumbers | scripts/osis_to_kjv_jsonl.py:115-124 | "Ps.23.1" style ids become "PSA 23:1" style refs |
| OsisRefs.SortKeyFormat | scripts/osis_to_kjv_jsonl.py:229-232 | `sort_key` reads back the book, chapter and verse a ref was written with |
| OsisRefs.OsisRefKey | scripts/osis_to_kjv_jsonl.py:229-232 | every ref `osis_id_to_ref` makes has a sort key, and the key gives it back |
| OsisRefs.KeyOrder | scripts/osis_to_kjv_jsonl.py:229-234 | the key order, book string then chapter then verse, is a strict total order |
| OsisRefs.Insert | scripts/osis_to_kjv_jsonl.py:234 | insertion keeps sortedness and places the new ref after refs with an equal key |
| OsisRefs.SortByKeySorted | scripts/osis_to_kjv_jsonl.py:234 | the sort puts the refs in key order and keeps every one of them |
| OsisRefs.SortedUnique | scripts/osis_to_kjv_jsonl.py:234 | two key-sorted arrangements of the same refs with distinct keys are equal |
| OsisText.Walk | scripts/osis_to_kjv_jsonl.py:132-141 | the recursive walk appends exactly the chunks of the element's text with notes skipped |
| OsisText.WalkChildren | scripts/osis_to_kjv_jsonl.py:138-141 | the child loop appends each child's chunks and then its tail |
| OsisText.IterTextExcluding | scripts/osis_to_kjv_jsonl.py:126-144 | the result is the element's text with note subtrees skipped |
| OsisText.WalkText | scripts/osis_to_kjv_jsonl.py:126-144 | the chunks join into that text |
| OsisText.NoteChildTail | scripts/osis_to_kjv_jsonl.py:133-141 | a note child contributes only its tail, whatever it holds |
| OsisText.TextIgnoresTail | scripts/osis_to_kjv_jsonl.py:126-144 | the element's own tail is never part of its text |
| OsisText.NoteFreeItertext | scripts/osis_to_kjv_jsonl.py:126-144 | without notes the text is that of `itertext` |
| OsisText.NormalizeText | scripts/osis_to_kjv_jsonl.py:97-103 | the result is trimmed |
| OsisText.NormalizeTextNoNbsp | scripts/osis_to_kjv_jsonl.py:97-103 | no no-break space remains |
| OsisText.NormalizeTextSpacing | scripts/osis_to_kjv_jsonl.py:101-103 | no whitespace remains before , . ; : ! ? or a closing quotation mark |
| OsisText.NormalizeTextNoBrackets | scripts/osis_to_kjv_jsonl.py:100-103 | no `[` has a `]` anywhere after it |
| OsisParse.MilestoneReader.constructor | scripts/osis_to_kjv_jsonl.py:153-158 | the reader starts with no open verse and an empty map |
| OsisParse.MilestoneReader.FlushActive | scripts/osis_to_kjv_jsonl.py:160-168 | the flush updates the fields as the state machine's flush does |
| OsisParse.MilestoneReader.StoreContainer | scripts/osis_to_kjv_jsonl.py:179-186 | a container verse updates the map as specified |
| OsisParse.MilestoneReader.Visit | scripts/osis_to_kjv_jsonl.py:173-210 | one element updates the fields as one step of the state machine |
| OsisParse.MilestoneReader.Collect | scripts/osis_to_kjv_jsonl.py:206-210 | inside an open verse an element's non-empty text and tail are appended |
| OsisParse.ParseOsis | scripts/osis_to_kjv_jsonl.py:146-215 | the element loop and the final flush compute the state machine's result |
| OsisParse.FlushProperties | scripts/osis_to_kjv_jsonl.py:160-168 | a flush always closes the open verse, keeps what was stored, and stores at most the open reference with its non-empty cleaned text |
| OsisParse.StartMilestone | scripts/osis_to_kjv_jsonl.py:188-193 | a start milestone flushes and then opens its own verse with an empty buffer |
| OsisParse.EndMilestone | scripts/osis_to_kjv_jsonl.py:195-199 | an end milestone flushes exactly when it names the open id, and otherwise changes nothing |
| OsisParse.Capture | scripts/osis_to_kjv_jsonl.py:202-210 | inside an open verse a note adds nothing, and any other element adds its text and tail |
| OsisParse.Outside | scripts/osis_to_kjv_jsonl.py:202 | outside any verse a non-verse element changes nothing |
| OsisParse.Container | scripts/osis_to_kjv_jsonl.py:179-186 | a container verse stores its cleaned text when the id resolves and the text is non-empty, overwriting an earlier one, and leaves the open milestone verse alone |
| OsisParse.ParseOsisOutput | scripts/osis_to_kjv_jsonl.py:146-215 | every stored reference is one `osis_id_to_ref` makes, and every text is non-empty and normalised |
| OsisParse.DistinctKeys | scripts/osis_to_kjv_jsonl.py:229-232 | distinct references have distinct sort keys |
| OsisParse.KeysOf | scripts/osis_to_kjv_jsonl.py:234 | the keys of the map, each once |
| OsisParse.WriteOrder | scripts/osis_to_kjv_jsonl.py:234 | the keys sorted by `sort_key`: a permutation of the keys in key order |
| OsisParse.RecordsOf | scripts/osis_to_kjv_jsonl.py:236-238 | one record per reference, in order, with its text |
| OsisParse.OsisMain | scripts/osis_to_kjv_jsonl.py:223-238 | the script fails exactly when no verse was parsed, and otherwise writes one record per reference in key order |
| OsisParse.WriteOrderUnique | scripts/osis_to_kjv_jsonl.py:234 | there is only one key-sorted order of the parsed references |
| Render.ParseRefProperties | scripts/render_readable.py:5-11 | a reference parses exactly when, once stripped, it fully matches `BOOK c:v`, and it parses to that book and those numbers |
| Render.ParseRefFormat | scripts/render_readable.py:7-11 | a reference written as `book c:v` parses back to its parts |
| Render.RowOfProperties | scripts/render_readable.py:27-34 | a verse object is kept exactly when its reference parses and its stripped text is not blank |
| Render.RowsOfFailure | scripts/render_readable.py:22-27 | reading fails exactly when some non-blank line is not JSON, at the first such line |
| Render.RowsOfStops | scripts/render_readable.py:22-27 | where reading stops, if it does |
| Render.RowsOfKept | scripts/render_readable.py:21-34 | a completed read holds the kept rows, in input order |
| Render.ReadRows | scripts/render_readable.py:21-34 | the reading loop computes the read specification |
| Render.SortRowsProperties | scripts/render_readable.py:37 | the sort orders rows by chapter and verse, keeps every row, and is stable, with the book playing no part |
| Render.LinesHeadings | scripts/render_readable.py:45-50 | one heading per run of equal chapters, in order |
| Render.LinesVerses | scripts/render_readable.py:52-53 | exactly one verse line per row, in order |
| Render.OneHeadingPerChapter | scripts/render_readable.py:37-50 | after the sort each chapter gets exactly one heading, in increasing chapter order |
| Render.Document | scripts/render_readable.py:58-59 | the written text is stripped and ends in exactly one newline |
| Render.RenderRow | scripts/render_readable.py:46-53 | one row adds a heading when the chapter changes, then its verse line, and makes its chapter current |
| Render.RenderLines | scripts/render_readable.py:39-53 | both renderings are the specified lines, the Markdown one after the title line when there is a title |
| Render.RenderMain | scripts/render_readable.py:21-59 | the script fails with the reading error, or writes both documents from the sorted rows |
| Usfm.MatchGenComplete | scripts/jsonl_to_usfm.py:9 | every `GEN c:v` reference, also with one final newline, matches with its numbers |
| Usfm.MatchGenSound | scripts/jsonl_to_usfm.py:9 | every match is such a reference with those numbers |
| Usfm.OtherBooksSkipped | scripts/jsonl_to_usfm.py:23-25 | references to other books never match |
| Usfm.VersesOfFailure | scripts/jsonl_to_usfm.py:19-21 | the script stops exactly when some line is blank, not JSON, or lacks ref or translation, at the first such line |
| Usfm.VersesOfMatched | scripts/jsonl_to_usfm.py:17-34 | a completed run holds the verses whose reference matches, in input order |
| Usfm.UsfmLinesStep | scripts/jsonl_to_usfm.py:30-34 | one more verse adds a `\c` line exactly when its chapter differs from the previous verse's, then its `\v` line |
| Usfm.UsfmChapterMarks | scripts/jsonl_to_usfm.py:27-32 | one `\c` line per maximal run of equal chapters, in input order |
| Usfm.UsfmVerseMarks | scripts/jsonl_to_usfm.py:34 | exactly one `\v` line per matching verse, in order, with its text verbatim |
| Usfm.ChapterComesBack | scripts/jsonl_to_usfm.py:30-32 | a chapter that comes back after another gets a second `\c` line |
| Usfm.EmitVerse | scripts/jsonl_to_usfm.py:30-34 | the lines for one verse, and its chapter made current |
| Usfm.UsfmLine | scripts/jsonl_to_usfm.py:18-34 | one turn of the loop extends the specification by one line, or stops the script with its error |
| Usfm.UsfmMain | scripts/jsonl_to_usfm.py:11-37 | the script fails with the first error, or writes the lines joined by newlines plus one newline |
| ChapterRuns.RunsProperties | scripts/jsonl_to_usfm.py:30-32 | neighbouring runs have different chapters, and every chapter heads a run |
| ChapterRuns.RunsOfNonDecreasing | scripts/render_readable.py:37-50 | on sorted chapters the runs strictly increase, so each chapter heads exactly one run |
| ChapterRuns.RunsComeBack | scripts/jsonl_to_usfm.py:27-32 | a chapter that comes back heads a second run |
| Oshb.NormalizeHebrew | scripts/oshb_to_jsonl.py:10-13 | the result is the input's words joined by single spaces, vowel points and cantillation marks staying inside their words |
| Oshb.NormalizeHebrewIdempotent | scripts/oshb_to_jsonl.py:10-13 | normalising twice is normalising once |
| Oshb.VerseIdChoice | scripts/oshb_to_jsonl.py:29-31 | the osisID wins when present and non-empty, then the osisRef; the verse is skipped exactly when neither has a value |
| Oshb.RefOfIdCases | scripts/oshb_to_jsonl.py:39-44 | an id without two dots is the ref verbatim; with them it fails exactly on a non-numeral chapter or verse, and otherwise is the upper-cased book with the numbers |
| Oshb.DotlessIdVerbatim | scripts/oshb_to_jsonl.py:43-44 | an id without a dot is kept as it is |
| Oshb.RefOfIdNumbers | scripts/oshb_to_jsonl.py:39-42 | "Book.c.v", with any further parts, becomes "BOOK c:v" |
| Oshb.RefOfIdKey | scripts/oshb_to_jsonl.py:42 | a converted ref reads back by `sort_key` as its book, chapter and verse |
| Oshb.RefFormatsDiverge | scripts/oshb_to_jsonl.py:42 | "Exod.c.v" becomes "EXOD c:v" here but "EXO c:v" in the other converter |
| Oshb.ConvertEmitted | scripts/oshb_to_jsonl.py:28-46 | where every id converts, the loop writes exactly one record per verse with an id, in order |
| Oshb.ConvertFailure | scripts/oshb_to_jsonl.py:42 | the loop fails only at a verse whose id does not convert, the first such |
| Oshb.ConvertSucceeds | scripts/oshb_to_jsonl.py:28-46 | the loop succeeds exactly when every id converts, and then writes the intended records |
| Oshb.OshbMain | scripts/oshb_to_jsonl.py:15-46 | the script fails when there are no verses or on the first bad id, and otherwise writes the intended records |
| Jsonl.InsertAllLastWins | scripts/apply_caps.py:27 | inserting entries in order holds exactly the keys that occur, each with the value of its last entry |

## Left out

- `\s`, `\w`, `\d` and letter case are ASCII. Python's Unicode classes and case mapping are not modelled, so Hebrew letters count as non-word characters.
- Python's `int()` accepts signs, underscores, surrounding spaces and non-ASCII digits. The model accepts only non-empty ASCII digit runs as numerals.
- Floating point is left out. The guard's ratio is compared by cross-multiplication (5·|r| against 3·|o| and 8·|o|). Confidence is counted in integer hundredths.
- JSON values other than strings are left out: objects map field names to strings. `str(val)` in the loader, and `isinstance` in `apply`, therefore always see strings.
- The LLM calls, prompts, sleeps, prints, argument parsing, directory creation and file reading and writing are left out. Model output is a function parameter. A file is a sequence of lines, and what a script writes is its result.
- Records written before an exception stop a script are left out. In polish, translate, kjv_pronouns, apply_caps and oshb the model returns only the error.
- ElementTree parsing, namespace lookup, `findall` and `iter` are left out. The document is a tree of elements with tag, attributes, text, tail and children, and `root.iter()` is its preorder.
- The CSV writer of `suggest_caps.main` (scripts/suggest_caps.py:157-176) is left out, with its float formatting and sort.
- The `OSIS_TO_REF` table is split into Old and New Testament maps. The lookup is unchanged.
- Python's sort (Timsort) is modelled as stable insertion sort. Both are stable, so they give the same order.
- `Polish.PolishMain` runs the row loop with `similarity_guard`, `normalize_space` and `apply_enforcement` passed as helpers. The loop's lemmas hold for any helpers.
- CompoundNumbers.EnforceCompoundNumbersNoPhrase: idempotence of `enforce_compound_numbers` is not proved. The model proves the shape of each rewrite, that nothing changes without a phrase, and that the normalised shape is kept.
- SuggestCaps.SuggestLine: uses the corrected title loop (see Findings). `SuggestCaps.StaleTexts` is the loop as written.

## Findings

| source | as written | input that shows it | evidently intended | confidence | as-written member | corrected member |
|---|---|---|---|---|---|---|
| scripts/suggest_caps.py:116-129 | the title matches are listed once, from the working text at the start of the loop, but each span is applied to the working text after the earlier replacements; `cap_phrase` shrinks a noun whose words are separated by more than one space, so later spans land too far right | "my high  tower and my rock" (two spaces): "high  tower" becomes "High Tower", one character shorter, so the second proposal writes "Rock" one place too far right and reads "my High Tower and my rRock" | shift each later span by the change in length of the nouns already replaced | not executed | SuggestCaps.TitlesMisplaced | SuggestCaps.TitleLoop |
