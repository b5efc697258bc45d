# DVC → UC transfer assistant: a verified model of its query logic

The assistant helps a Diablo Valley College (DVC) student plan a transfer to
UC Berkeley (UCB), UC Davis (UCD) or UC San Diego (UCSD). A student types a
question. The assistant:

- normalises common typos;
- detects the campuses, the requested requirement categories, the completed
  course codes and the domain preferences (computer science, math, science);
- lets a language model propose a structured reading, and cleans it up;
- flattens the articulation data of each campus into course rows;
- filters the rows by what the student has done and wants to see;
- keeps a session going over follow-up lines ("reset", "clear categories",
  "remove ucd", more codes, more campuses, "done").

A PostgreSQL-backed repository applies the same filters to database rows. A
sync script splits DVC course cells into codes and picks the UC side of each
articulation entry.

The model is pure Dafny: immutable datatypes and total functions, plus five
methods. Three hold loops: a generic filter loop, a generic first-occurrence
de-duplication loop, and the repository's per-campus row selection. The row
collector and the row filter run on those loops. Each method is proved equal
to a functional reference. Each module
follows one part of the program:

| module | models |
|---|---|
| `Strings`, `Scan`, `Subsequences`, `Optional`, `Json` | Python string operations (ASCII `lower`/`upper`, `strip`, `in`, `split`, `replace`), regex scanning primitives, decoded JSON values, Python truthiness and `str()` |
| `Campus`, `CampusFacts` | `normalize_typos`, `detect_campus_from_query`, `detect_campuses_from_query`, `parse_cli_campuses` |
| `Categories`, `CategoryFacts` | `normalize_categories_freeform`: the three capturing patterns, the alias pass and canonicalisation |
| `Codes` | `_normalize_single_code` and `parse_completed_freeform` |
| `Seed` | `parse_preferences_seed` |
| `Rows` | `collect_course_rows`, `is_cs_row`, `is_math_row`, `is_science_row`, `_row_matches_any_category`, `filter_rows` |
| `Resolver` | the post-processing of the model reply in `llm_parse_user_message` |
| `Session` | `interactive_session`: start-up, the state, and one follow-up step |
| `Repository` | `get_courses` (campus lookup, latest year, row filter), `get_campuses`, the three course classifiers |
| `Sync` | `split_codes` and `get_uc_block` |

Modelling decisions:

- Python sets are iterated in hash order, which CPython randomises per
  process. In `normalize_categories_freeform` that order decides which
  canonical key a phrase maps to. The model takes that order as a
  parameter `order` (any arrangement of the seven keys) and proves every
  property for all orders.
- The language model's reply is a parameter of type `Option<Json>`. `None`
  stands for a failed call or undecodable text. The database is a list of
  university rows, each holding its years, categories and equivalencies.
- In `Rows`, `Resolver` and `Sync`, where the source raises, the model
  returns `None`. This covers a non-string truthy course field, a
  non-object section of the reply, and a non-string code or title in
  `get_uc_block`. The caller then takes the source's own fallback, for
  example the default record in `llm_parse_user_message`. The session does
  not model the exception that ends it (see `Session.Start` and
  `Session.Merge` under "## Left out").
- The model reproduces the alias test `any(a in t for a in aliases)` as a
  plain substring test. So the alias "cal" makes any query containing
  "calculus" select UC Berkeley (`CampusFacts.CalculusSelectsBerkeley`).
  The source does this, and the model keeps it.

## Model

| member | source | states |
|---|---|---|
| `Campus.NormalizeTypos` | backend/ai_agent.py:32-36 | the normalised text has no upper-case ASCII letter |
| `TypoFacts.SubWordOnce` | backend/ai_agent.py:35 | a text holding a pattern once, as a word between non-word neighbours, is rewritten at exactly that place |
| `TypoFacts.TyposGone` | backend/ai_agent.py:24-36 | no pattern of the typo table occurs as a whole word in the normalised text |
| `TypoFacts.NormalizeTyposIdempotent` | backend/ai_agent.py:32-36 | normalising a normalised text changes nothing |
| `TypoFacts.UcbBecomesUcBerkeley` | backend/ai_agent.py:24-52 | a whole-word "ucb" in the lower-cased question puts "uc berkeley" into the normalised text, so UC Berkeley is detected |
| `TypoFacts.UsbBecomesUcBerkeley` | backend/ai_agent.py:24-52 | a whole-word "usb" in the lower-cased question puts "uc berkeley" into the normalised text, so UC Berkeley is detected |
| `TypoFacts.BerkleyBecomesBerkeley` | backend/ai_agent.py:24-52 | a whole-word "berkley" in the lower-cased question puts "berkeley" into the normalised text, so UC Berkeley is detected |
| `TypoFacts.UcsdBecomesUcSanDiego` | backend/ai_agent.py:24-52 | a whole-word "ucsd" in the lower-cased question puts "uc san diego" into the normalised text, so UC San Diego is detected |
| `TypoFacts.UcSdBecomesUcSanDiego` | backend/ai_agent.py:24-52 | a whole-word "uc sd" in the lower-cased question puts "uc san diego" into the normalised text, so UC San Diego is detected |
| `Campus.ApplyFixes` | backend/ai_agent.py:24-36 | applying the typo table in order keeps text lower-case when the text and every replacement are lower-case |
| `Campus.ApplyFixesNoMatch` | backend/ai_agent.py:34-35 | when no pattern matches as a whole word anywhere, the text is unchanged |
| `Campus.SubWordNoMatch` | backend/ai_agent.py:35 | `re.sub` with `\b…\b` leaves a text with no whole-word occurrence unchanged |
| `Campus.SubWordProduces` | backend/ai_agent.py:35 | a whole-word occurrence puts the replacement into the result |
| `Campus.TypoTable` | backend/ai_agent.py:24-30 | every typo pattern is non-empty and every replacement is lower-case |
| `Campus.CampusTable` | backend/ai_agent.py:12-16 | the alias table lists UCB, UCD and UCSD in sorted order with their aliases |
| `Campus.AnyInIff` | backend/ai_agent.py:41 | `any(a in t for a in aliases)` holds exactly when some alias is a substring |
| `Campus.FirstKeyHit` | backend/ai_agent.py:40-43 | the result is the first table entry with a matching alias, and nothing exactly when no entry matches |
| `Campus.KeysHit` | backend/ai_agent.py:49-51 | exactly the keys of entries with a matching alias are collected |
| `Campus.DetectCampus` | backend/ai_agent.py:38-43 | the detected key is mentioned, no smaller key is mentioned, and `None` means no campus is mentioned |
| `Campus.FirstKeyHitOrder` | backend/ai_agent.py:40-42 | table order is key order, so the first hit is the least mentioned key |
| `Campus.DetectCampuses` | backend/ai_agent.py:46-52 | the result is sorted without repeats and holds exactly the mentioned campus keys |
| `Campus.DetectCampusIsFirst` | backend/ai_agent.py:38-52 | single detection is the head of multiple detection, and finds nothing exactly when that list is empty |
| `Campus.LeastMentioned` | backend/ai_agent.py:40-52 | a sorted list of exactly the matching keys starts with the least matching key |
| `Campus.CliPieces` | backend/ai_agent.py:638 | the pieces are exactly the stripped non-empty comma-separated parts |
| `Campus.KnownKeys` | backend/ai_agent.py:640-643 | exactly the candidates that are campus keys are kept |
| `Campus.ParseCliCampuses` | backend/ai_agent.py:635-644 | a missing or empty option gives nothing; otherwise the sorted distinct keys detected from, or spelled as, the comma-separated parts |
| `CampusFacts.NoFixApplies` | backend/ai_agent.py:24-36 | text without any typo pattern passes through the typo fixes unchanged |
| `CampusFacts.DetectFirst` | backend/ai_agent.py:40-42 | detection returns the first mentioned key in table order |
| `CampusFacts.UcbDetected` | backend/ai_agent.py:24-43 | the query "UCB" detects UC Berkeley |
| `CampusFacts.UcdDetected` | backend/ai_agent.py:12-43 | the query "UCD" detects UC Davis |
| `CampusFacts.UcsdDetected` | backend/ai_agent.py:24-43 | the query "UCSD" detects UC San Diego |
| `CampusFacts.KeysDetectThemselves` | backend/ai_agent.py:12-43 | every campus key, typed as a query, detects itself |
| `CampusFacts.TransferToCal` | backend/ai_agent.py:12-52 | "I want to transfer to Cal" is read as "i want to transfer to cal" and detects UC Berkeley through the alias "cal" |
| `CampusFacts.BerkeleyAndSanDiego` | backend/ai_agent.py:12-52 | "ucb and ucsd requirements" detects exactly UC Berkeley and UC San Diego, in that order |
| `CampusFacts.CalculusSelectsBerkeley` | backend/ai_agent.py:12-52 | the alias "cal" makes "calculus" count as a mention of UC Berkeley |
| `Categories.LazyQuoted` | backend/ai_agent.py:83 | the lazy group `(.+?)` ends at the first closing quote and holds the text before it |
| `Categories.ScanFrom` | backend/ai_agent.py:83-99 | every phrase a pattern captures is non-empty and stripped |
| `Categories.ShowLazy` | backend/ai_agent.py:96 | the lazy `show … only` group holds only phrase characters |
| `Categories.AliasHitsIn` | backend/ai_agent.py:102-109 | a key is picked exactly when it, or one of its variants, is a substring of the text |
| `Categories.MatchedKey` | backend/ai_agent.py:116-120 | the matched key is a key contained in the phrase; no match means no key is contained |
| `Categories.CanonicalShape` | backend/ai_agent.py:114-121 | a phrase becomes a key it contains, or stays as it is when it contains none |
| `Categories.CanonicalAll` | backend/ai_agent.py:114-121 | canonicalisation maps each picked phrase in place |
| `Categories.PickedShape` | backend/ai_agent.py:79-109 | every picked phrase is non-empty and stripped |
| `Categories.NormalizeCategories` | backend/ai_agent.py:71-122 | the result is sorted without repeats; each entry is the canonical form of a picked phrase and every picked phrase is represented; each entry is a key or contains no key |
| `CategoryFacts.ScanWithoutKeyword` | backend/ai_agent.py:89-99 | without the word "only" (or "show") in the text, that pattern captures nothing |
| `CategoryFacts.LazyQuotedFinds` | backend/ai_agent.py:83 | the quoted group runs exactly up to the first closing quote when no newline comes first |
| `CategoryFacts.CanonicalOfFirstKey` | backend/ai_agent.py:114-121 | "major preparation" canonicalises to itself under every key order when it holds no other key |
| `CategoryFacts.NormalizeSinglePhrase` | backend/ai_agent.py:111-122 | text from which one self-canonical phrase is picked normalises to that phrase alone |
| `CategoryFacts.QuotedCategoryExample` | backend/ai_agent.py:71-122 | `category:"major preparation"` yields exactly `["major preparation"]` under every key order |
| `Codes.Prepare` | backend/ai_agent.py:126 | upper-casing, stripping and turning spaces into hyphens gives upper-case text without spaces |
| `Codes.PrepareCodeText` | backend/ai_agent.py:126 | preparing already prepared text changes nothing |
| `Codes.RewriteAlias` | backend/ai_agent.py:127-128 | a CS alias prefix becomes `COMSC-` followed by the rest after the first hyphen; other text is unchanged; no alias prefix remains |
| `Codes.ParseDeptNumComplete` | backend/ai_agent.py:129 | `DEPT`, an optional hyphen or space, and digits with an optional letter match the regex with those two groups |
| `Codes.ParseAfterHyphen` | backend/ai_agent.py:129 | after `DEPT-` the regex matches exactly when the rest is digits with an optional letter |
| `Codes.EmitCanonical` | backend/ai_agent.py:130-131 | re-emitting the groups gives the canonical `DEPT-NUM` form |
| `Codes.NormalizeSingleCodeAsWritten` | backend/ai_agent.py:125-132 | the source's order: alias rewrite, then regex re-emission; matched codes come out canonical, unmatched ones come out rewritten |
| `Codes.AsWrittenNotIdempotent` | backend/ai_agent.py:125-132 | as written, "CS61A" becomes "CS-61A", which a second pass turns into "COMSC-61A" |
| `Codes.NormalizeSingleCode` | backend/ai_agent.py:125-132 | the corrected normaliser leaves no CS alias, and matched codes come out canonical |
| `Codes.WrittenCodeIff` | backend/ai_agent.py:125-132 | a code is a possible output of the normaliser as written exactly when it is canonical, or unmatched and alias-free |
| `Codes.TwoPasses` | backend/ai_agent.py:125-132 | two passes of the normaliser as written compute the corrected normaliser |
| `Codes.NormalizeIdempotent` | backend/ai_agent.py:125-132 | normalising twice gives the same code as normalising once |
| `Codes.CanonicalFixed` | backend/ai_agent.py:129-131 | a canonical code without alias is a fixed point of both normalisers |
| `Codes.SamePrepared` | backend/ai_agent.py:126 | codes that prepare alike normalise alike |
| `Codes.NormalizeSpacedAlias` | backend/ai_agent.py:125-132 | "cs 61a" normalises to "COMSC-61A", under the normaliser as written and the corrected one |
| `Codes.NormalizeGluedCode` | backend/ai_agent.py:125-132 | "MATH192" normalises to "MATH-192", under the normaliser as written and the corrected one |
| `Codes.MatchedIsCanonical` | backend/ai_agent.py:127-131 | a code the regex matches after preparation comes out canonical |
| `Codes.CodeTokenAt` | backend/ai_agent.py:136 | a token found at a position is the text from that position to its end |
| `Codes.TokenAtParses` | backend/ai_agent.py:129-136 | every token the `findall` pattern finds is matched by the normaliser's regex after preparation |
| `Codes.TokensParse` | backend/ai_agent.py:136-137 | all tokens found in a text are matched by the normaliser's regex |
| `Codes.ParseCompletedFreeform` | backend/ai_agent.py:134-138 | the set holds exactly the tokens' images under the normaliser as written; each is canonical, and one without a CS alias is a fixed point of that normaliser |
| `Codes.SkipNoTokens` | backend/ai_agent.py:136 | positions where no token starts contribute nothing |
| `Codes.NextTokenFound` | backend/ai_agent.py:136 | the scan returns the token at the first position where the pattern matches, then resumes at its end |
| `Codes.NoTokensIff` | backend/ai_agent.py:136 | the scan finds nothing exactly when the pattern matches at no position |
| `Codes.FreeformOfOneToken` | backend/ai_agent.py:134-138 | a text with one token yields the singleton of that token normalised as written |
| `Codes.GluedAliasKept` | backend/ai_agent.py:125-138 | a text whose only token is "CS61A" records "CS-61A", keeping the alias department |
| `Codes.CompletedExample` | backend/ai_agent.py:134-138 | "I already took COMSC-110" yields exactly {"COMSC-110"} |
| `Seed.Exclusive` | backend/ai_agent.py:145-151 | an exclusive domain exists exactly when one domain is wanted, and it is that domain |
| `Seed.ParsePreferencesSeed` | backend/ai_agent.py:140-165 | each flag holds exactly when one of its cue phrases occurs in the padded lower-cased query; seed categories are cleared exactly when a domain is exclusive |
| `Seed.SeedCategoriesShape` | backend/ai_agent.py:153-164 | seed categories are sorted, non-empty and stripped |
| `Seed.MixedIntentKeepsCategories` | backend/ai_agent.py:162-164 | "math requirements for computer science" wants both domains, has no exclusive domain and keeps its categories |
| `Seed.CsOnlyIsExclusive` | backend/ai_agent.py:140-165 | "cs only" singles out cs, clears seed categories and is not required-only |
| `Json.Get` | backend/ai_agent.py:189-203 | `dict.get` finds a value exactly when the key is present, and the value is the one stored |
| `Json.Or` | backend/ai_agent.py:201-203 | `a or b` is `a` when `a` is truthy and `b` otherwise |
| `Json.DecimalRoundTrip` | backend/ai_agent.py:326-327 | reading back the decimal text of a natural number gives the number |
| `Json.PyStr` | backend/ai_agent.py:326 | `str` of a positive integer is a digit string whose value is the integer |
| `Rows.TextOf` | backend/ai_agent.py:217-226 | `(value or "")` is the string itself, "" for a falsy value, and fails for a truthy non-string |
| `Rows.Then` | backend/ai_agent.py:205-209 | rows of consecutive parts are concatenated, and a failing part fails the whole |
| `Rows.ItemRows` | backend/ai_agent.py:196-204 | a DVC block yields at most one row per item |
| `Rows.CollectCourseRows` | backend/ai_agent.py:183-221 | de-duplication keeps the first row of each non-blank stripped code, in order, as a subsequence of the collected rows |
| `Rows.ComputerScienceIsNotScience` | backend/ai_agent.py:250-260 | with "computer science" in the category and no other science word, only the code prefix makes a row science |
| `Rows.ComputerScienceCategory` | backend/ai_agent.py:223-260 | a "computer science" category row with a non-science code is a CS row and not a science row |
| `Rows.CategoryMatchMeaning` | backend/ai_agent.py:262-277 | no request matches all rows; a blank category matches none; otherwise a row matches when some request occurs in its category or, for a canonical key, one of that key's variants does |
| `Rows.MoreCategoriesKeepRows` | backend/ai_agent.py:268-276 | requesting more categories never drops a matching row |
| `Rows.RequiredNumber` | backend/ai_agent.py:326-327 | an integer requirement counts as required exactly when positive |
| `Rows.RequiredString` | backend/ai_agent.py:326-327 | a text requirement counts exactly when it is "all" in any case or a positive digit string |
| `Rows.DomainRule` | backend/ai_agent.py:308-314 | a row survives the completed-domain checks exactly when none of its completed domains classifies it |
| `Rows.Passes` | backend/ai_agent.py:301-342 | the loop body keeps a row exactly when it passes every filter in the source's order |
| `Rows.FilterRows` | backend/ai_agent.py:279-345 | the result is the order-preserving subsequence of exactly the rows that pass |
| `Rows.MoreCompletedKeepsFewer` | backend/ai_agent.py:304-314 | more completed courses or domains never add rows to the result |
| `Resolver.StringItems` | backend/ai_agent.py:446-448 | exactly the string items of a list are kept |
| `Resolver.ListItems` | backend/ai_agent.py:407-409 | a list value gives its items and anything else gives nothing |
| `Resolver.Section` | backend/ai_agent.py:400-404 | a missing section defaults to an empty object, and a non-object section fails |
| `Resolver.SingleCampus` | backend/ai_agent.py:410-412 | a single campus is added only when it is a non-blank string |
| `Resolver.ResolveCampuses` | backend/ai_agent.py:415-422 | sorted distinct campus keys, each detected from or spelled as an input |
| `Resolver.KeyInputsKept` | backend/ai_agent.py:419-421 | an input that is already a campus key is kept |
| `Resolver.ResolveFocus` | backend/ai_agent.py:427-434 | the focus is the lower-cased stripped string when it is cs, math, science or all, and `None` otherwise |
| `Resolver.DomainHits` | backend/ai_agent.py:438-443 | exactly the known domains named by some entry after lower-casing and stripping |
| `Resolver.NormalizeAllFacts` | backend/ai_agent.py:448 | the list holds exactly the inputs' images under the normaliser as written, one per input; a second pass over each gives its corrected form |
| `Resolver.ResolveCompleted` | backend/ai_agent.py:445-452 | sorted distinct codes: exactly the reply's strings normalised as written, together with the codes found in the user's message |
| `Resolver.NonBlank` | backend/ai_agent.py:462 | exactly the entries that are not blank |
| `Resolver.ResolveCategories` | backend/ai_agent.py:454-468 | a domain focus clears the categories; otherwise sorted distinct non-blank reply strings merged with the message's own categories |
| `Resolver.TryResolve` | backend/ai_agent.py:399-470 | fails exactly where the source raises; otherwise a valid record (completed codes are outputs of the normaliser as written) that keeps the intent, the required-only flag and every campus and code found in the message |
| `Resolver.Resolve` | backend/ai_agent.py:399-476 | always a valid record, whose completed codes are outputs of the normaliser as written: the default when the call or the post-processing fails, the resolved reply otherwise |
| `Session.InData` | backend/ai_agent.py:669-675 | exactly the keys with campus data, in order |
| `Session.Without` | backend/ai_agent.py:786-789 | exactly the keys not named for removal, in order |
| `Session.AddCampuses` | backend/ai_agent.py:829-833 | campuses with data are appended after the existing ones, and no campus appears twice |
| `Session.RemoveGroup` | backend/ai_agent.py:706-708 | the `(?P<campus>.+)` group is a non-empty run without newline taken from the text |
| `Session.SearchRemove` | backend/ai_agent.py:782 | `re.search` finds the first position where the word and its group match, or none |
| `Session.RemoveTarget` | backend/ai_agent.py:781-784 | the group comes from the first remove pattern that matches |
| `Session.FirstQuery` | backend/ai_agent.py:651-656 | a blank first line is replaced by the built-in query |
| `Session.Start` | backend/ai_agent.py:658-686 | a session starts exactly when some chosen campus has data; its state meets the session invariant (completed codes are outputs of the normaliser as written) and its seed comes from the first query |
| `Session.PickedDistinct` | backend/ai_agent.py:666-675 | the chosen campuses have no repeats |
| `Session.Merge` | backend/ai_agent.py:803-833 | a follow-up merge, recording codes as the normaliser as written gives them, keeps the seed and the termination flag |
| `Session.Apply` | backend/ai_agent.py:726-833 | only "done" ends the session, and it changes nothing else |
| `Session.Step` | backend/ai_agent.py:711-841 | a finished session stays as it is, and the seed never changes |
| `Session.StepKeepsInv` | backend/ai_agent.py:680-841 | every follow-up line keeps the session invariant: distinct campuses with data, completed codes that are outputs of the normaliser as written, known domains and focus, sorted non-blank categories |
| `Session.BlankLineIgnored` | backend/ai_agent.py:726-727 | a blank line changes nothing |
| `Session.DoneTerminates` | backend/ai_agent.py:729-760 | "done" ends the session and changes nothing else |
| `Session.ResetClearsCompleted` | backend/ai_agent.py:762-769 | "reset" empties completed courses and domains and changes nothing else |
| `Session.ResetShowsMore` | backend/ai_agent.py:762-769 | after "reset" every row shown before is still shown |
| `Session.ClearCategoriesOnly` | backend/ai_agent.py:771-777 | "clear categories" empties the categories and changes nothing else |
| `Session.RemoveDeletesNamed` | backend/ai_agent.py:779-801 | a remove line drops exactly the named campuses, keeps the order of the rest, shrinks the list and changes nothing else |
| `Session.MergeFacts` | backend/ai_agent.py:803-838 | any other line keeps every completed course, domain, category and campus, adds the line's own codes and categories, appends campuses with data, takes the reply's focus when it has one, and leaves the session running |
| `Session.RemoveUcdExample` | backend/ai_agent.py:779-801 | "remove ucd" in a UCB+UCD session leaves UCB alone |
| `Repository.UniversityNamesKeys` | backend/database/repository.py:59-63 | the name map covers exactly the three campus keys |
| `Repository.NameTablesInverse` | backend/database/repository.py:59-150 | the key-to-name and name-to-key maps are inverse |
| `Repository.ScienceByCode` | backend/database/repository.py:199-202 | a course is science exactly by its code prefix, whatever its title |
| `Repository.ToOut` | backend/database/repository.py:129-135 | the output row copies code, title and category; no units become 0; a falsy requirement becomes "None" |
| `Repository.Passes` | backend/database/repository.py:95-127 | one equivalency passes exactly when every filter admits it, in the source's order |
| `Repository.CampusCourses` | backend/database/repository.py:91-135 | the loop collects exactly the selected output rows |
| `Repository.SelectedMeaning` | backend/database/repository.py:91-135 | every output row comes from an admitted equivalency and every admitted one is output |
| `Repository.SelectedRules` | backend/database/repository.py:99-127 | every output row meets the category, required-only, completed and focus filters |
| `Repository.RequiredOnlyNarrows` | backend/database/repository.py:103-107 | asking for required courses only never adds rows |
| `Repository.FindUniversity` | backend/database/repository.py:69 | the first university with that name, and none exactly when no row has the name |
| `Repository.LatestYear` | backend/database/repository.py:75 | a year of the university that no other year exceeds, and none exactly when there are no years |
| `Repository.CampusEquivalencies` | backend/database/repository.py:68-89 | a missing university or a university without years gives nothing |
| `Repository.GetCourses` | backend/database/repository.py:51-139 | the result has exactly the requested campus keys, each mapped to its selected rows |
| `Repository.MissingDataGivesNothing` | backend/database/repository.py:69-78 | a known campus without data maps to an empty list |
| `Repository.GetCampuses` | backend/database/repository.py:141-150 | exactly the keys of listed universities with a known name |
| `Repository.ListedCampusesAreFound` | backend/database/repository.py:141-150 | every listed campus is found again by name lookup |
| `Sync.CleanPiece` | scripts/sync_json_to_postgres.py:52 | a cleaned piece is stripped and keeps a clean code unchanged |
| `Sync.SplitCodes` | scripts/sync_json_to_postgres.py:46-55 | an empty cell gives nothing; otherwise exactly the non-empty cleaned pieces between `/` and `,`, in order |
| `Sync.SplitCodesJoin` | scripts/sync_json_to_postgres.py:46-55 | splitting codes joined by either separator gives the codes back |
| `Sync.FourSpacesBecomeTwo` | scripts/sync_json_to_postgres.py:52 | one replace pass halves a run of four spaces instead of collapsing it |
| `Sync.TextField` | scripts/sync_json_to_postgres.py:71-72 | a missing field reads as "", a string is stripped, any other value fails |
| `Sync.BlockOf` | scripts/sync_json_to_postgres.py:71-74 | the block holds the stripped code and title and the raw units, and fails exactly when either text field fails |
| `Sync.GetUcBlock` | scripts/sync_json_to_postgres.py:68-75 | the block of the first UC entry whose value is an object, or the empty block when there is none |
| `Sync.GetUcBlockFirstWins` | scripts/sync_json_to_postgres.py:69-74 | entries before the first UC object are skipped and entries after it are never read |
| `Sync.GetUcBlockSkipsNonObjects` | scripts/sync_json_to_postgres.py:70 | a UC key whose value is not an object is passed over |

## Left out

- Input and output: `input()`, every `print`, `print_lists`, the CSV and JSON logs (`append_logs`), the `--json-only` and `--demo` paths, `load_all_data` and `main`.
- The language model calls: the request in `llm_parse_user_message`, and `llm_format_response` and `llm_format_response_multi`. The parsed reply is a parameter; the final summary on "done" is not produced.
- Database access: the SQLAlchemy session and queries. University, year and equivalency rows are given as lists; `get_categories` is not part of this model.
- `Repository.LatestYear`: `ORDER BY year DESC … first()` is modelled as any year that no other year exceeds in string order. When two rows share the latest year, the database's choice between them is left open.
- `Repository.ToOut`: the DVC course code is taken to be a string. A NULL code would raise in `_is_cs_course`'s caller, which is not modelled.
- `Sync.GetUcBlock`: the units are returned as the raw `Units` value. `parse_units`, which parses them as a float, is not modelled because the model has no floating point.
- `Rows.CollectCourseRows`: a truthy non-string category or title makes the whole collection fail. The source keeps such rows and raises only if a classifier, the category match or `print_lists` later reads the field.
- `Session.Start`: the source builds `collect_course_rows(data[ck])` for every chosen campus (backend/ai_agent.py:688), and a truthy non-string code, category or title there raises and ends the session. The model's start does not consult that collection and starts anyway.
- `Session.Merge`: when a follow-up adds a campus, the source collects its rows (backend/ai_agent.py:832), and a truthy non-string code, category or title there raises and ends the session. The model's merge adds the campus and carries on.
- JSON numbers are integers only. A float such as `2.0` in `minimum_required` (whose `str` is "2.0", so not required) or in a units field cannot be represented.
- `Json.Get`: a decoded object is taken to have distinct keys. `json.loads` keeps the last value of a repeated key, while `Get` returns the first.
- `Json.PyStr`: `str()` of a list or dictionary is only exact in its first character. No caller looks further.
- Text handling is ASCII only: `lower`/`upper` change only ASCII letters, and `\b` and `\w` use ASCII word characters. Python applies Unicode rules.
- Python set iteration order is the parameter `order` in category canonicalisation. The model does not pick a particular hash order.
- The remove patterns use `.+` without DOTALL: the group stops at a newline. Input lines never contain one, since `input()` strips it.

## Findings

| source | as written | input that shows it | evidently intended | confidence | as-written member | corrected member |
|---|---|---|---|---|---|---|
| backend/ai_agent.py:125-132 | the CS alias rewrite (`CS-` → `COMSC-`) runs before the regex re-inserts the hyphen, so a glued code keeps its alias | `_normalize_single_code("CS61A")` returns "CS-61A", and normalising that again returns "COMSC-61A" | every CS code normalises to `COMSC-NUM`, and normalising twice equals normalising once | not executed | `Codes.AsWrittenNotIdempotent` | `Codes.NormalizeIdempotent` |

The corrected normaliser (`Codes.NormalizeSingleCode`) applies the alias
rewrite again after re-emitting the hyphen; `Codes.TwoPasses` shows it
equals two passes of the normaliser as written. The completed-course path
(`Codes.ParseCompletedFreeform`, `Resolver.ResolveCompleted`, the session
state) keeps the source's behaviour and uses the normaliser as written, so
"I already took CS110" records "CS-110" (`Codes.GluedAliasKept`), and a
row whose code is COMSC-110 is still shown.
