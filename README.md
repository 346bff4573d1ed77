# HomeworkHelper core, modelled in Dafny

HomeworkHelper is a Streamlit tutoring app. This project models the logic behind
it:

- **`concept_map_db.get_concept`**: how a topic is turned into spellings, and how
  the three SQL lookup stages over `concept_map` find a concept.
- **`concept_map_loader`**: the concept map loader and its two tree walks,
  `_find_question_focus` and `_find_category`, with the database and "haha"
  fallbacks of `get_question_focus` and `detect_category_for_topic`.
- **`parser_newsletter`**: the newsletter parser (`extract_topic`, `get_date`,
  `parse_newsletter`) and the flat `update_topics` defined in the same file.
- **`passage_loader`**: cleaning a Gutenberg text and packing its paragraphs
  into passages.
- **`topic_manager`**: the three synchronisers between the `{subject}_hints.yaml`
  files and the `topics` table (`update_topics`, `sync_db_to_yaml`,
  `sync_yaml_to_db`).
- **`llm_helpers`**: the post-processing that `generate_sentences` and
  `generate_grammar_question` apply to the language model's reply.

Modules follow the source files:

| module | models |
|---|---|
| `ConceptMapDb` | `utils/concept_map_db.py` |
| `ConceptMapLoader` | `utils/concept_map_loader.py` |
| `ParserNewsletter` | `utils/parser_newsletter.py`, lines 1-39 |
| `NewsletterTopics` | `utils/parser_newsletter.py`, the flat `update_topics` at lines 58-92 |
| `PassageLoader` | `utils/passage_loader.py` |
| `TopicManager` | `utils/topic_manager.py`: `update_topics` and `sync_db_to_yaml` |
| `TopicTable` | `utils/topic_manager.py`: `sync_yaml_to_db` and the `topics` table |
| `LlmHelpers` | `utils/llm_helpers.py` |
| `Sql` | the `topics` table's stored values (`NULL`, integer, text) and how `sqlite3` hands them back to Python |
| `HintFiles` | the hints directory and the topic key, shared by the three YAML writers |
| `Values` | a parsed YAML/JSON value: insertion-ordered dicts, `dict.get`, `setdefault`, `update`, truthiness |
| `Text` | the string built-ins used: `strip`, `lower`, `replace`, `find`, `split`, `splitlines`, `join`, `in` |

**Data.** A YAML or JSON document is a `Value`: `None`, a bool, an int, a str,
a list, or a dict kept as an ordered list of pairs, so iteration order,
`setdefault` and `update` behave as Python's. Floats, YAML timestamps and
binary scalars are not values of the model (see "Left out"). Python exceptions are values:
`Result`/`Option` error paths. They are never preconditions. A row of the
`topics` table holds SQLite values (`NULL`, an integer or text) in every column,
so a `NULL` or integer name or subject is a row like any other.

**State.** Code that mutates state is written with methods:

- the hints directory is a `HintsDirectory` object whose `files` map the
  writers reassign;
- the `topics` table is a `TopicsTable` object holding its rows;
- `random.shuffle` works in place on an array.

Each loop that updates state or accumulates a list is a `while`/`for` loop in
a method, proved equal to a specification function. The properties are lemmas
about those functions. The two tree walks of `concept_map_loader`
(`_find_question_focus`, `_find_category`) recurse in the source and are
recursive functions here (`ScanFocus`, `ScanCategory`).

**What is proved, in the system's terms:**

- **`get_concept`**:
  - every stage binds exactly as many parameters as its SQL has placeholders;
  - stage 1 answers whenever some row matches a spelling exactly, and stage 2
    whenever some row contains one;
  - any concept returned comes from a row of the requested subject;
  - stage 3 (the LEFT JOIN with `topics` and `concepts`) filters `concept_map`
    exactly as stage 2 does, so it can never find a row stage 2 missed. The
    richer dict it would build (`grade_level`, `notes`) is therefore never
    returned.
- **Concept map walks**:
  - in `_find_question_focus` the exact-key branch is redundant, since every
    exact match is also a fuzzy match;
  - skipped keys are invisible to `_find_category`;
  - every answer comes from a matching key;
  - outside database mode, `detect_category_for_topic` never returns `None`.
- **Newsletter parsing**:
  - `get_date` returns the reformatted leftmost date-shaped match when that is
    a real `%m/%d/%Y` date, and today otherwise; formatting and parsing a date
    round-trip;
  - `parse_newsletter` emits a record exactly for each (line, subject) pair
    where the line names the subject.
- **Passages**:
  - packing keeps every paragraph in order;
  - every passage fits;
  - every group but the last was closed by a paragraph that did not fit;
  - the shuffle is a permutation.
- **Hints files**:
  - `update_topics` changes only the entries its records name;
  - the last record for an entry decides that entry;
  - a second run with the same records changes nothing;
  - `sync_db_to_yaml` writes exactly the subjects that have rows;
  - `sync_yaml_to_db` keeps one row per name, the last entry winning, and is
    idempotent.
- **Between the writers**: the metadata that `update_topics` and
  `sync_db_to_yaml` write under `_meta` is invisible to `sync_yaml_to_db`, which
  reads `meta`.
- **Replies from the language model**: every sentence returned passes `good`:
  a good candidate whenever one exists, and otherwise one of the three
  placeholders. The grammar question always has the three
  keys and a non-empty options list. A reply whose answer is not among its
  options still passes validation.

Where the docstrings and the code disagree, the model follows the code:

- `detect_category_for_topic` says it returns `'general'` when nothing is
  found, but it returns `"haha"`.
- `update_topics` writes `_meta` while `sync_yaml_to_db` reads `meta`.
- `get_question_focus`'s docstring speaks of the YAML only, yet in database
  mode it asks `get_concept`.

## Model

| member | source | states |
|---|---|---|
| ConceptMapDb.Normalize | utils/concept_map_db.py:28-29 | a normalised topic is stripped, lower-case and free of `-` |
| ConceptMapDb.NormalizeNone | utils/concept_map_db.py:28-29 | `None` and the empty string both normalise to the empty string |
| ConceptMapDb.NormalizeIdempotent | utils/concept_map_db.py:28-29 | normalising a normalised topic changes nothing |
| ConceptMapDb.DashesReplaced | utils/concept_map_db.py:29 | replacing `-` by `_` keeps a stripped lower-case text stripped and lower-case |
| ConceptMapDb.NormalizeCanonical | utils/concept_map_db.py:28-29 | a canonical spelling is its own normal form |
| ConceptMapDb.InsertSorted | utils/concept_map_db.py:58 | inserting into a sorted set gives a strictly ascending list holding exactly the old members and the new one |
| ConceptMapDb.SortedSet | utils/concept_map_db.py:58 | `sorted(set(xs))` is strictly ascending with exactly the members of `xs` |
| ConceptMapDb.DropEmpty | utils/concept_map_db.py:58 | the filter keeps exactly the non-empty spellings |
| ConceptMapDb.DropEmptyAscending | utils/concept_map_db.py:58 | in an ascending list only the first spelling can be empty |
| ConceptMapDb.Spellings | utils/concept_map_db.py:31-58 | the spellings are strictly ascending, are exactly the non-empty candidates, and number 1 to 5 |
| ConceptMapDb.Variants | utils/concept_map_db.py:31-58 | `_variants`: strictly ascending, exactly the non-empty candidates of the normalised topic, 1 to 5 of them |
| ConceptMapDb.VariantsDistinct | utils/concept_map_db.py:57-58 | no spelling is tried twice |
| ConceptMapDb.PluralToggleDiffers | utils/concept_map_db.py:35-39 | the plural toggle always changes the spelling |
| ConceptMapDb.VariantsAtLeastTwo | utils/concept_map_db.py:31-58 | unless the topic is blank or just `s`, at least two spellings are tried |
| ConceptMapDb.VariantsToggle | utils/concept_map_db.py:33-39 | the topic and its plural toggle are both tried when non-empty |
| ConceptMapDb.CandidatesShape | utils/concept_map_db.py:33-55 | the candidates are exactly the topic, its plural toggle, its two sentence toggles and its alias |
| ConceptMapDb.VariantsBlank | utils/concept_map_db.py:31-58 | a blank topic yields exactly `["s"]` |
| ConceptMapDb.AliasNormalized | utils/concept_map_db.py:46-55 | every alias target is non-empty and already normalised |
| ConceptMapDb.VariantsAlias | utils/concept_map_db.py:46-55 | an aliased topic also tries its alias target |
| ConceptMapDb.SpellingsNoAlias | utils/concept_map_db.py:33-43 | a topic without alias tries only itself and its plural and sentence toggles |
| ConceptMapDb.AdverbAlias | utils/concept_map_db.py:46-48 | `adverb` and `adverbs` both try `adjectives_and_adverbs` |
| ConceptMapDb.LikePatterns | utils/concept_map_db.py:91 | one `%variant%` pattern per variant, in order |
| ConceptMapDb.LikeAny | utils/concept_map_db.py:92 | the OR of LIKEs takes one parameter per variant |
| ConceptMapDb.JoinOn | utils/concept_map_db.py:126-129 | each join condition takes one parameter per variant |
| ConceptMapDb.RenderPlaceholders | utils/concept_map_db.py:68-129 | a rendered condition holds one `?` per parameter it binds |
| ConceptMapDb.SelectPlaceholders | utils/concept_map_db.py:113-134 | a rendered query holds one `?` per placeholder of its parts |
| ConceptMapDb.ParameterCounts | utils/concept_map_db.py:66-141 | each stage passes exactly as many parameters as its SQL has `?`: `1 + n`, `1 + n`, `3n + 1` |
| ConceptMapDb.ExactBinding | utils/concept_map_db.py:68-76 | stage 1's WHERE holds exactly for a row of the subject whose lower-cased topic is a variant |
| ConceptMapDb.LikeAnyEval | utils/concept_map_db.py:92 | the OR of LIKEs holds exactly when some pattern matches |
| ConceptMapDb.LikeBinding | utils/concept_map_db.py:89-100 | stage 2's WHERE holds exactly for a row of the subject whose lower-cased topic is LIKE some `%variant%` |
| ConceptMapDb.JoinOnEval | utils/concept_map_db.py:126-129 | a join condition holds exactly when the joined row has the same subject and its name equals the topic ignoring case or is LIKE some pattern |
| ConceptMapDb.JoinWhereBinding | utils/concept_map_db.py:130-140 | stage 3's WHERE receives the subject and the last `n` patterns and keeps exactly the rows stage 2 keeps |
| ConceptMapDb.JoinWhereIsLikeWhere | utils/concept_map_db.py:113-140 | stage 3's filter and stage 2's filter agree on every joined row |
| ConceptMapDb.JoinTopicsBinding | utils/concept_map_db.py:126-127 | the `topics` join receives the first `n` patterns, with the meaning of `JoinOnEval` |
| ConceptMapDb.JoinConceptsBinding | utils/concept_map_db.py:128-129 | the `concepts` join receives the second `n` patterns, with the meaning of `JoinOnEval` |
| ConceptMapDb.JoinStageAddsNothing | utils/concept_map_db.py:113-140 | a row that passes stage 3 passes stage 2 |
| ConceptMapDb.Choices | utils/concept_map_db.py:117-129 | a LEFT JOIN pairs a row with NULL or any row of the joined table |
| ConceptMapDb.GetConcept | utils/concept_map_db.py:7-157 | the result is an outcome the three stages allow for the topic's variants |
| ConceptMapDb.Lookup | utils/concept_map_db.py:24-157 | a missing database file raises; a missing `concept_map` finds nothing; otherwise the stages decide |
| ConceptMapDb.ExactStage | utils/concept_map_db.py:66-87 | stage 1 returns a row it matches, or hands over to stage 2 |
| ConceptMapDb.FuzzyStage | utils/concept_map_db.py:89-111 | with stage 1 empty, stage 2 returns a row it matches, or hands over to stage 3 |
| ConceptMapDb.JoinStage | utils/concept_map_db.py:113-157 | with stages 1 and 2 empty, stage 3 finds nothing and the result is `None` |
| ConceptMapDb.StageNone | utils/concept_map_db.py:156-157 | when no stage finds a row, `None` is an allowed outcome |
| ConceptMapDb.OutcomeFileMissing | utils/concept_map_db.py:24-25 | `get_concept` raises exactly when the database file is missing |
| ConceptMapDb.JoinHitIsLikeHit | utils/concept_map_db.py:113-140 | every row stage 3 could return passes stage 2 |
| ConceptMapDb.OutcomeNeverJoined | utils/concept_map_db.py:113-152 | a concept carrying `grade_level` and `notes` is never returned |
| ConceptMapDb.OutcomeFound | utils/concept_map_db.py:66-111 | a returned concept comes from a row of the requested subject that matches a variant exactly or by LIKE |
| ConceptMapDb.OutcomeExact | utils/concept_map_db.py:66-87 | when some row matches a variant exactly, such a row is returned |
| ConceptMapDb.OutcomeFuzzy | utils/concept_map_db.py:89-111 | with no exact match, when some row contains a variant, such a row is returned |
| ConceptMapDb.OutcomeNone | utils/concept_map_db.py:156-157 | without `concept_map`, or with no matching row, the result is `None` |
| ConceptMapLoader.LoadConceptMap | utils/concept_map_loader.py:18-35 | the database marker when the database exists, else the YAML file, else `FileNotFoundError` |
| ConceptMapLoader.ExactIsFuzzy | utils/concept_map_loader.py:99-103 | a key equal to the topic up to case also matches fuzzily |
| ConceptMapLoader.FindFocusFuzzyOnly | utils/concept_map_loader.py:92-111 | dropping the exact-key branch of `_find_question_focus` changes no result |
| ConceptMapLoader.FindFocusSource | utils/concept_map_loader.py:92-111 | every question focus found is the `question_focus` of a dict under a key matching the topic |
| ConceptMapLoader.FindFocusNone | utils/concept_map_loader.py:92-111 | a tree with no matching key holding a focus gives `None` |
| ConceptMapLoader.FuzzyNotDescended | utils/concept_map_loader.py:103-106 | a fuzzily matching key is never descended into |
| ConceptMapLoader.FocusFirstHit | utils/concept_map_loader.py:95-110 | depth-first, first hit wins: keys after a hit are never consulted |
| ConceptMapLoader.PathOf | utils/concept_map_loader.py:168 | the current path is the key at the top, else the path, `/`, the key |
| ConceptMapLoader.PathOfJoin | utils/concept_map_loader.py:168 | the path built while descending is the keys joined by `/` |
| ConceptMapLoader.CategoryOfPath | utils/concept_map_loader.py:172-176 | the category is the key above the match, or the key itself at the top level |
| ConceptMapLoader.ListHas | utils/concept_map_loader.py:190-191 | a list holds the topic up to case, or raises on a non-string element met before a match |
| ConceptMapLoader.DbModeShortCircuit | utils/concept_map_loader.py:158-161 | the `db_mode` short-circuit never changes the answer |
| ConceptMapLoader.SkippedIgnored | utils/concept_map_loader.py:164-167 | a skipped entry can be dropped without changing the result |
| ConceptMapLoader.FindCategorySource | utils/concept_map_loader.py:156-194 | every category found comes from a matching key or a list holding the topic |
| ConceptMapLoader.PyIn | utils/concept_map_loader.py:118 | `in` on a dict, list or str, and `TypeError` on anything else |
| ConceptMapLoader.PyIndex | utils/concept_map_loader.py:119 | indexing succeeds exactly on a dict holding the key |
| ConceptMapLoader.DbModeOn | utils/concept_map_loader.py:122 | database mode is on exactly when `db_mode` maps to `True` |
| ConceptMapLoader.QuestionFocusDbMode | utils/concept_map_loader.py:113-147 | in database mode the focus is `get_concept`'s, and `None` when it found nothing or failed |
| ConceptMapLoader.QuestionFocusYaml | utils/concept_map_loader.py:113-147 | from a YAML dict, the focus is what the tree walk finds, `None` when the walk raises |
| ConceptMapLoader.QuestionFocusSource | utils/concept_map_loader.py:85-147 | a focus found comes from `get_concept` or from a key of the loaded tree matching the topic |
| ConceptMapLoader.DetectCategoryYaml | utils/concept_map_loader.py:196-220 | outside database mode the category is never `None`: a non-empty category from the subject's map, or `"haha"` |
| ConceptMapLoader.DetectCategoryDbMode | utils/concept_map_loader.py:196-220 | in database mode the category is `get_concept`'s, `None` when it found nothing, `"haha"` when it raised |
| ConceptMapLoader.DetectCategoryTopLevel | utils/concept_map_loader.py:162-177 | a topic filed as a top-level key of the subject's map is reported as that key |
| ParserNewsletter.FirstSep | utils/parser_newsletter.py:10 | the position of the first `:` or `-`, if any |
| ParserNewsletter.SplitSeps | utils/parser_newsletter.py:10 | `re.split` gives at least one piece, and no piece holds a separator |
| ParserNewsletter.ExtractTopic | utils/parser_newsletter.py:5-11 | with a separator the topic has no space, separator or capital; without one it is the stripped, lower-cased line |
| ParserNewsletter.TopicChars | utils/parser_newsletter.py:11 | a piece without separators gives a topic without spaces, separators or capitals |
| ParserNewsletter.ExtractTopicBetween | utils/parser_newsletter.py:10-11 | the topic is the text between the first and second separator, stripped, lower-cased, spaces turned into `_` |
| ParserNewsletter.DigitRun | utils/parser_newsletter.py:17 | the length of the maximal run of digits at a position |
| ParserNewsletter.MatchAt | utils/parser_newsletter.py:17 | a match at a position has 1-2 month digits, 1-2 day digits and 2-4 year digits |
| ParserNewsletter.MatchAtLayout | utils/parser_newsletter.py:17 | a match is month, `/`, day, `/`, year, with a word boundary on both sides |
| ParserNewsletter.SearchDate | utils/parser_newsletter.py:17 | `re.search` finds the leftmost match, and none exactly when no position matches |
| ParserNewsletter.ParseDate | utils/parser_newsletter.py:20 | `strptime` accepts only a four-digit year and a real date, and reads its digits |
| ParserNewsletter.Pad2 | utils/parser_newsletter.py:21 | two zero-padded digits reading back as the number |
| ParserNewsletter.Pad4 | utils/parser_newsletter.py:21 | four zero-padded digits reading back as the number |
| ParserNewsletter.FormatDate | utils/parser_newsletter.py:21 | `YYYY-MM-DD`, whose three digit groups read back as the year, month and day |
| ParserNewsletter.GetDateMeaning | utils/parser_newsletter.py:13-24 | the date is the reformatted leftmost match when it parses; otherwise, or with no match, it is today |
| ParserNewsletter.FormatDateRoundTrip | utils/parser_newsletter.py:20-21 | a formatted date parses back as the same date |
| ParserNewsletter.LineRecords | utils/parser_newsletter.py:34-38 | a line's records carry its topic and the date, one per subject at most |
| ParserNewsletter.LineRecordsMembership | utils/parser_newsletter.py:34-38 | a line yields a record for a subject exactly when its lower-cased text contains the subject |
| ParserNewsletter.LinesRecords | utils/parser_newsletter.py:33-38 | every record has one of the five subjects and the newsletter's date |
| ParserNewsletter.ParseNewsletter | utils/parser_newsletter.py:26-39 | the records of the text's lines, in line order and then subject order |
| ParserNewsletter.ScanLine | utils/parser_newsletter.py:34-38 | the inner loop yields the line's records in the order of the subjects |
| ParserNewsletter.DateFirst | utils/parser_newsletter.py:17 | in a text with no digit before a date-shaped `M/D/Y` bounded by non-word characters, `re.search` finds exactly that match |
| ParserNewsletter.OneRecord | utils/parser_newsletter.py:34-38 | a line naming exactly one subject yields exactly one record, with its topic |
| ParserNewsletter.SampleNewsletter | utils/parser_newsletter.py:41-49 | the example newsletter gives exactly grammar/adverbs, reading/point_of_view and math/fractions, all dated 2025-10-14 |
| ParserNewsletter.RecordsMembership | utils/parser_newsletter.py:26-39 | a record is produced exactly when some line names its subject, with that line's topic and the newsletter's date |
| NewsletterTopics.FlatUpdateTopics | utils/parser_newsletter.py:58-92 | the directory after the loop, and whether it raised, are those of the record-by-record specification |
| NewsletterTopics.FlatTouchExisting | utils/parser_newsletter.py:77-79 | an existing entry raises exactly when it is not a dict; otherwise it gains only `active` and `last_seen_date` |
| NewsletterTopics.FlatTouchNew | utils/parser_newsletter.py:80-89 | a new name gets the default record, active with the record's date |
| NewsletterTopics.FlatEntryGrade | utils/parser_newsletter.py:81-89 | the default record carries the record's subject and grade 5 |
| NewsletterTopics.FlatEntryContent | utils/parser_newsletter.py:81-89 | the default record has a pending definition, no examples and an empty link |
| NewsletterTopics.FlatTouchSeen | utils/parser_newsletter.py:77-89 | an entry written without raising is active with the record's date |
| NewsletterTopics.FlatTouchFresh | utils/parser_newsletter.py:77-89 | a later record on a created entry only moves its date; the subject stays the first record's |
| NewsletterTopics.FlatStepSeen | utils/parser_newsletter.py:65-92 | after a record, its entry is active with its date |
| NewsletterTopics.FlatStepFrame | utils/parser_newsletter.py:65-92 | a record changes no other entry |
| NewsletterTopics.FlatStepRaises | utils/parser_newsletter.py:70-79 | a record raises exactly when its file is not a dict or its entry is not a dict |
| NewsletterTopics.FlatAllSplit | utils/parser_newsletter.py:65-92 | once a record raises the rest are not applied; otherwise the loop continues from where it was |
| NewsletterTopics.FlatAllFrame | utils/parser_newsletter.py:65-92 | an entry no record names keeps its value, even when the loop raises |
| NewsletterTopics.FlatLastRecordWins | utils/parser_newsletter.py:65-92 | the entry of the last record naming it is active with that record's date |
| HintFiles.TopicKey | utils/topic_manager.py:108 | the key has the topic's length, lower-cased, with spaces turned into `_` |
| HintFiles.TopicKeyCanonical | utils/topic_manager.py:108 | a key has no space or capital, and keying it again changes nothing |
| HintFiles.Loaded | utils/topic_manager.py:112-119 | a file loads as its content when truthy, and as `{}` when it is missing or falsy |
| PassageLoader.CleanText | utils/passage_loader.py:55-62 | the cleaned text is stripped and has no carriage return |
| PassageLoader.CleanTextNoMarkers | utils/passage_loader.py:55-62 | without both markers the whole text is cleaned; a clean text comes back unchanged |
| PassageLoader.CleanTextMarkers | utils/passage_loader.py:57-61 | with both markers the text from the start marker to the end marker is cleaned, and nothing is left when the end comes first |
| PassageLoader.MarkersApart | utils/passage_loader.py:57-60 | the end marker cannot begin inside the start marker |
| PassageLoader.NoEndInside | utils/passage_loader.py:57-58 | no end marker begins inside a start marker |
| PassageLoader.Pack | utils/passage_loader.py:66-75 | at least one group; every group but the first is non-empty and holds only paragraphs of the text |
| PassageLoader.PackFlatten | utils/passage_loader.py:69-75 | the groups are consecutive runs holding every paragraph in order |
| PassageLoader.PackFits | utils/passage_loader.py:69-75 | every group's text is shorter than `max_len + 2`, unless it is a single paragraph that opened a later group |
| PassageLoader.PackGreedy | utils/passage_loader.py:69-75 | every group but the last was closed by a paragraph that did not fit |
| PassageLoader.EmittedPassages | utils/passage_loader.py:73-77 | every emitted passage is a passage of the text |
| PassageLoader.PassagesShape | utils/passage_loader.py:64-77 | every passage is stripped, long enough, and short enough unless it is a single paragraph |
| PassageLoader.Shuffle | utils/passage_loader.py:78 | the shuffle permutes the list in place |
| PassageLoader.Emit | utils/passage_loader.py:73-77 | a group is emitted exactly when its text is longer than `min_len` |
| PassageLoader.SplitIntoPassages | utils/passage_loader.py:64-79 | the result is a permutation of the passages |
| PassageLoader.PackPassages | utils/passage_loader.py:66-77 | the loop emits the passages of the packed groups, in order |
| PassageLoader.ScanJoin | utils/passage_loader.py:70-71 | a paragraph that fits is appended to the current group |
| PassageLoader.ScanBreak | utils/passage_loader.py:72-75 | a paragraph that does not fit closes the current group and starts the next |
| PassageLoader.ScanEnd | utils/passage_loader.py:76-77 | emitting the last group completes the passages |
| PassageLoader.PackStep | utils/passage_loader.py:69-75 | one more paragraph either joins the last group or starts a new one |
| TopicManager.UpdateTopics | utils/topic_manager.py:99-146 | the directory after the loop, and whether it raised, are those of the record-by-record specification |
| TopicManager.UpdateAllStopped | utils/topic_manager.py:106-146 | once a record has raised, the rest are never applied |
| TopicManager.UpdateDataNew | utils/topic_manager.py:122-133 | a new name is appended with the default entry, and nothing else in the file changes |
| TopicManager.MetaAfterTouch | utils/topic_manager.py:136-142 | `meta.update` leaves `active`, the date, the subject and the kept grade, and every other key as it was |
| TopicManager.TouchExisting | utils/topic_manager.py:134-142 | an existing entry raises exactly when it is not updatable; otherwise it is stamped |
| TopicManager.StampEffect | utils/topic_manager.py:134-142 | stamping keeps every key but `_meta`, and touches `_meta` only at the four keys |
| TopicManager.StampFixed | utils/topic_manager.py:134-142 | stamping an entry already stamped for the record changes nothing |
| TopicManager.TouchFixed | utils/topic_manager.py:134-142 | an entry already stamped for the record is written back as it is |
| TopicManager.StampOverwrite | utils/topic_manager.py:134-142 | a second stamp gives what that stamp alone gives |
| TopicManager.MetaOverwrite | utils/topic_manager.py:136-142 | of two `meta.update`s of one `_meta`, the second wins |
| TopicManager.NewEntryStamped | utils/topic_manager.py:122-133 | a new entry is updatable and stamped for its record |
| TopicManager.TouchDone | utils/topic_manager.py:121-142 | every entry written is updatable and stamped for its record |
| TopicManager.UpdateDataFrame | utils/topic_manager.py:121-142 | a record changes only its own entry, and an existing name keeps its place |
| TopicManager.UpdateDataRaises | utils/topic_manager.py:118-142 | a record raises exactly when the file is not a dict or its entry exists and is not updatable |
| TopicManager.StepSettled | utils/topic_manager.py:106-146 | a step on a settled entry does not raise and leaves it stamped for the record |
| TopicManager.StepFrame | utils/topic_manager.py:106-146 | a step changes no entry but its own |
| TopicManager.StepKeeps | utils/topic_manager.py:106-146 | a step keeps every settled entry settled |
| TopicManager.StepAbsorb | utils/topic_manager.py:106-146 | running a record again on its own result changes nothing |
| TopicManager.StepOverwrite | utils/topic_manager.py:106-146 | of two records for one settled entry, the second wins |
| TopicManager.StepCommute | utils/topic_manager.py:106-146 | records for different entries commute |
| TopicManager.SettledAfter | utils/topic_manager.py:106-146 | after a run to the end every record's entry is settled |
| TopicManager.RunKeeps | utils/topic_manager.py:106-146 | a run keeps every settled entry settled |
| TopicManager.SettledRun | utils/topic_manager.py:106-146 | records whose entries are all settled run to the end |
| TopicManager.AbsorbAfter | utils/topic_manager.py:106-146 | a record on a settled entry run before others is absorbed by running it again after them |
| TopicManager.CommutePast | utils/topic_manager.py:106-146 | a record whose entry no later record touches can be moved after them |
| TopicManager.UpdateTopicsIdempotent | utils/topic_manager.py:99-146 | after a run to the end, running the same records again changes nothing |
| TopicManager.LastRecordWins | utils/topic_manager.py:106-146 | the entry takes the date and subject of the last record filed under it, and is active |
| TopicManager.GroupBySubject | utils/topic_manager.py:58-66 | the grouping loop builds the groups of the specification |
| TopicManager.AddToGroupOf | utils/topic_manager.py:61 | appending a topic extends its own subject's group and no other |
| TopicManager.AddToWellGrouped | utils/topic_manager.py:61 | appending a topic adds its subject and keeps the groups well formed |
| TopicManager.SubjectsGroupOf | utils/topic_manager.py:59-66 | a subject has a group exactly when it has topics |
| TopicManager.GroupRowsSpec | utils/topic_manager.py:58-66 | every row lands in its subject's group only, in row order, one non-empty group per subject |
| TopicManager.GroupOfAt | utils/topic_manager.py:59-66 | a group's topics are its subject's topics |
| TopicManager.SyncSubject | utils/topic_manager.py:76-91 | the loop over a subject's topics updates its file as the specification does, a dict by key and a list by integer index |
| TopicManager.SyncDbToYaml | utils/topic_manager.py:50-97 | for any fetched rows, including `NULL` or integer names and subjects, and any loaded files, lists included, the directory after the loop and whether it raised are those of the group-by-group specification, each group written to `str(subject)`'s file |
| TopicManager.SyncMetaEffect | utils/topic_manager.py:85-91 | `meta.update` leaves the row's four values, and every other key as it was |
| TopicManager.SyncEntryExisting | utils/topic_manager.py:78-91 | an existing entry raises exactly when it is not updatable; otherwise its `_meta` is updated in place or added last |
| TopicManager.SyncEntryNew | utils/topic_manager.py:78-91 | a missing name gets the skeleton entry with the row's values as its whole `_meta` |
| TopicManager.SyncStampEffect | utils/topic_manager.py:85-91 | stamping keeps every key but `_meta`, and `_meta` holds the row's values |
| TopicManager.SyncEntryDone | utils/topic_manager.py:76-91 | every entry written is updatable and holds the row's values |
| TopicManager.SyncTopicRaises | utils/topic_manager.py:76-91 | a topic raises exactly when a dict file's entry exists and is not updatable, a list file's integer name is out of range (`IndexError`) or equals an element whose indexed element is not updatable, a list file's name is not an integer, or the file is neither a dict nor a list |
| TopicManager.SyncTopicEffect | utils/topic_manager.py:76-91 | on a dict file, after a topic its entry holds the row's values and every other entry is unchanged |
| TopicManager.SyncTopicListEffect | utils/topic_manager.py:76-91 | on a file that is not a dict, a topic that does not raise had a list and an in-range integer name; the element it indexes (negative from the end) holds the row's values and every other element is unchanged |
| TopicManager.ListFileIntName | utils/topic_manager.py:76-91 | the list file `["x", "y"]` with the integer name `0` gets the skeleton, with the row's values, in place of `"x"` |
| TopicManager.SyncDataListLength | utils/topic_manager.py:76-91 | a list file stays a list of the same length |
| TopicManager.SyncDataListFrame | utils/topic_manager.py:76-91 | on a list file, an element no topic's name indexes is left as it was |
| TopicManager.SyncDataListLast | utils/topic_manager.py:76-91 | on a list file, the last topic whose name indexes an element decides it |
| TopicManager.SyncDataFrame | utils/topic_manager.py:76-91 | on a dict file, an entry no topic of the group names is left as it was |
| TopicManager.SyncDataLast | utils/topic_manager.py:76-91 | on a dict file, the last topic of a name decides that entry |
| TopicManager.SyncDataSplit | utils/topic_manager.py:76-91 | a group runs as its first topics, then the rest |
| TopicManager.SyncDataKeys | utils/topic_manager.py:76-94 | the file keeps every key it had and gains the group's names |
| TopicManager.SyncAllOther | utils/topic_manager.py:68-94 | a file no group is for is neither written nor created |
| TopicManager.SyncAllFile | utils/topic_manager.py:68-94 | after a run to the end, a group alone in its file leaves there its loaded content updated by the group |
| TopicManager.SyncAllStopped | utils/topic_manager.py:68-94 | when the loop raises, the groups before the failing one were written and the rest were not |
| TopicManager.SyncSubjectFile | utils/topic_manager.py:50-94 | a subject with rows gets its file written with those rows applied in order |
| TopicManager.SyncNoRows | utils/topic_manager.py:50-94 | a subject without rows has its file neither written nor created |
| TopicManager.SyncedRow | utils/topic_manager.py:50-94 | the entry of a row no later row renames holds that row's values |
| TopicManager.OwnedGroup | utils/topic_manager.py:59-69 | a subject no other subject's text shares has the only group filed in its file |
| TopicManager.SyncedNullSubject | utils/topic_manager.py:55-91 | a row whose subject is `NULL` lands in `None_hints.yaml` with `None` as its `_meta` subject, unless a row has the text subject `None` |
| TopicManager.IntStringNotNone | utils/topic_manager.py:69 | no integer subject prints as `None`, so an integer never shares the `NULL` subject's file |
| TopicManager.SyncUntouched | utils/topic_manager.py:50-94 | a file keeps every entry it had, gains one per row name, and an unnamed entry is as loaded |
| Sql.PyOf | utils/topic_manager.py:55-56 | a fetched column is `None` for `NULL`, an `int` for an integer and a `str` for text, with the same content |
| Sql.PyStr | utils/topic_manager.py:69 | the f-string renders `NULL` as `None`, text as itself and an integer as its decimal digits |
| TopicTable.BindFetched | utils/topic_manager.py:35-56 | a value fetched from the table binds back to the same stored value |
| TopicTable.Bind | utils/topic_manager.py:35-44 | how `sqlite3` binds a value: NULL for `None`, text for `str`, no adapter for lists, dicts or ints beyond 64 bits |
| TopicTable.ParseInt | utils/topic_manager.py:31 | `int(s)` succeeds only on a non-blank text |
| TopicTable.PyInt | utils/topic_manager.py:31 | `int(v)`: bools as 0 or 1, ints as themselves, `ValueError` for a bad text, `TypeError` otherwise |
| TopicTable.ParseIntRoundTrip | utils/topic_manager.py:31 | `int(str(i)) == i` |
| TopicTable.BindRow | utils/topic_manager.py:35-44 | a row binds exactly when all five parameters bind, in order |
| TopicTable.RowOfDefaults | utils/topic_manager.py:28-32 | an entry without `meta` is upserted with every default |
| TopicTable.RowOfMeta | utils/topic_manager.py:28-32 | an entry whose `meta` holds the four values is upserted with exactly those |
| TopicTable.RowOfIgnoresUnderscoreMeta | utils/topic_manager.py:28 | replacing `_meta` leaves the upserted row unchanged |
| TopicTable.RowOfIgnoresSetDefault | utils/topic_manager.py:28 | `setdefault("_meta", {})` leaves the upserted row unchanged |
| TopicTable.TouchInvisible | utils/topic_manager.py:136-142 | what `update_topics` writes into an existing entry is invisible to `sync_yaml_to_db` |
| TopicTable.NewEntryDefaults | utils/topic_manager.py:122-133 | an entry `update_topics` creates is upserted with the defaults, whatever its record |
| TopicTable.SyncEntryInvisible | utils/topic_manager.py:85-91 | what `sync_db_to_yaml` writes into an existing entry is invisible to `sync_yaml_to_db` |
| TopicTable.SyncEntryNewDefaults | utils/topic_manager.py:78-91 | an entry `sync_db_to_yaml` creates is upserted with the defaults, not its row's values |
| TopicTable.IndexOfName | utils/topic_manager.py:38 | the first row with the name, or none when no row has it |
| TopicTable.Upsert | utils/topic_manager.py:35-44 | a taken name is overwritten where it stands; any other row is appended; every other row is kept |
| TopicTable.UpsertLookup | utils/topic_manager.py:35-44 | after an upsert its name holds the new row and every other name its old row |
| TopicTable.UpsertUnique | utils/topic_manager.py:35-44 | an upsert keeps names unique |
| TopicTable.UpsertRowsLookup | utils/topic_manager.py:27-44 | after many upserts each name holds the last row given for it, or its old row |
| TopicTable.UpsertRowsIdempotent | utils/topic_manager.py:27-44 | upserting the same named rows again changes nothing |
| TopicTable.UpsertRowsLast | utils/topic_manager.py:27-44 | the last row given for a name holds it |
| TopicTable.UpsertRowsInPlace | utils/topic_manager.py:27-44 | when every name already has a row, rows are overwritten where they stand |
| TopicTable.YamlRows | utils/topic_manager.py:27-44 | one row per item in order, or the error of the first item that cannot become a row |
| TopicTable.SyncYamlToDb | utils/topic_manager.py:14-48 | the table after the loop is the specification's when no entry raises, and unchanged otherwise |
| TopicTable.LastEntryWins | utils/topic_manager.py:27-46 | each name keeps one row, that of the last item with that name |
| TopicTable.OtherRowsKept | utils/topic_manager.py:27-46 | a name no item has keeps its row, or stays absent |
| TopicTable.SyncYamlToDbIdempotent | utils/topic_manager.py:14-48 | syncing the same file twice changes nothing when no entry is keyed by `null` |
| LlmHelpers.Span | utils/llm_helpers.py:67 | the first opening and last closing character, with no match exactly when no opening is followed by a closing one |
| LlmHelpers.Extract | utils/llm_helpers.py:67-69 | the extracted text is no longer than the reply |
| LlmHelpers.ExtractSpan | utils/llm_helpers.py:67-69 | the whole reply without a match; otherwise the text from the first opening to the last closing character |
| LlmHelpers.ExtractIdempotent | utils/llm_helpers.py:67-69 | extracting a second time changes nothing |
| LlmHelpers.NumberedNotIntro | utils/llm_helpers.py:80-83 | a line beginning with a digit is never taken for an introduction |
| LlmHelpers.DigitRun | utils/llm_helpers.py:83 | the length of the maximal run of leading digits |
| LlmHelpers.DropNumber | utils/llm_helpers.py:83 | removing the numbering leaves a suffix of the line |
| LlmHelpers.AfterNumber | utils/llm_helpers.py:83 | after the digits, a suffix without leading whitespace |
| LlmHelpers.DropNumberSuffix | utils/llm_helpers.py:83 | an unnumbered line is kept as it is; a numbered one loses its number; a stripped line stays stripped |
| LlmHelpers.SkipMap | utils/llm_helpers.py:78-84 | no more outputs than lines |
| LlmHelpers.SkipMapExactly | utils/llm_helpers.py:78-84 | an output is exactly the image of a line not skipped |
| LlmHelpers.CleanedExactly | utils/llm_helpers.py:76-84 | a candidate is exactly a non-introduction line with its numbering removed |
| LlmHelpers.CleanedStripped | utils/llm_helpers.py:76-84 | from stripped lines every candidate is stripped |
| LlmHelpers.FallbackCandidates | utils/llm_helpers.py:74-84 | the fallback loop computes the cleaned candidates of the reply's non-blank lines |
| LlmHelpers.CandidatesStripped | utils/llm_helpers.py:65-84 | every candidate, from the JSON list or the fallback, is stripped |
| LlmHelpers.GoodOnes | utils/llm_helpers.py:87-98 | every sentence kept is good |
| LlmHelpers.GoodOnesExactly | utils/llm_helpers.py:98 | the filter keeps exactly the good candidates |
| LlmHelpers.PyPrefix | utils/llm_helpers.py:102 | `s[:n]` is a prefix of `s`, with Python's meaning for negative `n` |
| LlmHelpers.PlaceholdersGood | utils/llm_helpers.py:87-113 | each of the three placeholder sentences passes `good` |
| LlmHelpers.FittedGood | utils/llm_helpers.py:98-113 | when every candidate kept is good, every sentence returned is good, whether truncated, padded or replaced by the placeholders |
| LlmHelpers.FittedFrom | utils/llm_helpers.py:100-113 | with a good candidate, every sentence returned is one of them |
| LlmHelpers.FitCount | utils/llm_helpers.py:100-113 | the truncate-or-extend step gives the fitted list of the specification |
| LlmHelpers.GenerateSentences | utils/llm_helpers.py:49-114 | the sentences are the good candidates fitted to `n`, and every sentence returned is good, the placeholders included |
| LlmHelpers.ValidateExactly | utils/llm_helpers.py:152-157 | validation passes exactly for a dict with the three keys whose options are a non-empty list |
| LlmHelpers.GenerateGrammarQuestion | utils/llm_helpers.py:117-165 | the question always has the three keys and a non-empty options list |
| LlmHelpers.FallbackShape | utils/llm_helpers.py:159-165 | the fallback has four options and its answer `noun` is one of them |
| LlmHelpers.GrammarQuestionSource | utils/llm_helpers.py:141-165 | the question is the parsed reply exactly when it validates, else the fallback |
| LlmHelpers.AnswerNotChecked | utils/llm_helpers.py:153-158 | a reply whose answer is not among its options still passes validation |

## Left out

- Streamlit output (`st.write`), `print`, the `DEBUG` flags and the diagnostic helpers write only to the screen and are not modelled.
- The `lru_cache` around `load_concept_map` is not modelled. The model assumes the concept map file does not change between calls; if it did, the cache would return the stale map.
- File I/O: the hints files are held as parsed values in a `HintsDirectory`, assuming that dumping a value as YAML and loading it back gives the same value. `sort_keys` and YAML formatting are not modelled.
- `os.makedirs` is not modelled; the directory always exists in the model.
- The grammar hints file that `sync_yaml_to_db` reads is its parsed content, given as a parameter.
- SQLite is modelled as lists of rows:
  - `LIKE` matching is a parameter (`like`);
  - `LIMIT 1` may return any qualifying row;
  - type affinity is not modelled;
  - `updated_at` and `datetime.now()` are not modelled.
- ConceptMapDb.GetConcept: a closed connection, a locked database and other `sqlite3` errors are not modelled; only a missing file raises.
- The loader functions take `get_concept`'s outcome as a parameter (`lookup`), since its database is not part of their input. The case where `get_concept` is missing is `None`.
- `strip`, `split` and `\s` use Python's full Unicode whitespace set, and `splitlines` its full line-break set. Case folding, `\d`, `\w` and `\b` are ASCII-only in the model; Python's Unicode-aware versions are not modelled.
- ParserNewsletter.GetDate: today's date is a parameter, since it comes from the clock.
- `fetch_from_gutendex`, `load_random_passage` and the local passage files are network and file access, and are not modelled.
- PassageLoader.Shuffle: the random draws are a parameter. The contract states only that the list is permuted, which is all that `random.shuffle` promises.
- PassageLoader.SplitIntoPassages: states the passages up to order, because the order is random.
- The OpenAI request, `call_llm`, `json.loads` and `str()` of a parsed item are not modelled. The reply, the parser (`loads`) and the repr (`repr`) are parameters.
- No property is proved about the prompts sent to the model, which are plain text.
- `sync_yaml_to_db` does not roll back explicitly. An entry that raises leaves the open transaction uncommitted, and SQLite discards it when the connection is closed. The model keeps the table as it was.
- `simplify_text`, `generate_questions` and `explain_word` in `utils/llm_helpers.py` only forward a prompt to `call_llm`, and are not modelled. The PDF exports there are not modelled either: they only lay out text.
- TopicManager.StepFrame, TopicManager.UpdateDataFrame, TopicManager.SyncDataFrame and NewsletterTopics.FlatStepFrame hold only for files without YAML aliases. `yaml.safe_load` turns an alias into the same dict object as its anchor, so the in-place writes of the three writers (`data[name][...] = ...`, `meta.update`) change every entry that shares that dict. Anchors and aliases are not modelled.
- TopicTable.ParseInt: Python's `int()` also accepts `_` between digits and non-ASCII decimal digits. The model refuses both.
- TopicManager.SyncedRow, TopicManager.SyncUntouched and TopicManager.SyncSubjectFile require the subject to have its file to itself (`FileOwned`). A `NULL` subject and the text `None`, or an integer and the text of its digits, write the same `{subject}_hints.yaml`; the later group then loads and rewrites the file the earlier group wrote. The model's `SyncAll` computes that, but these lemmas do not describe it.
- `REAL` and `BLOB` columns are not modelled: the `topics` table's columns hold `NULL`, integers or text.
- TopicManager.SyncedRow, TopicManager.SyncUntouched and TopicManager.SyncedNullSubject are stated for a subject whose file loads as a dict. A file that loads as a non-empty list is updated by integer index; TopicManager.SyncTopicListEffect, TopicManager.SyncDataListFrame and TopicManager.SyncDataListLast describe that case per group, and TopicManager.SyncAllFile and TopicManager.SyncSubjectFile cover both.
- Floats, YAML timestamps and binary scalars are not modelled. `yaml.safe_load` turns `5.5` into a `float`, an unquoted `2025-10-14` into a `datetime.date` and `!!binary` into `bytes`, and `json.loads` yields floats. What the source then does with them is not captured:
  - `sync_yaml_to_db` binds a float `grade_level` as a SQLite `REAL`;
  - it binds a `datetime.date` `last_seen_date` as ISO text through `sqlite3`'s default adapter;
  - `int()` truncates a float `active`;
  - `str()` in `generate_sentences` prints a float reply item (`1.5`).
- Values.Get compares dict keys structurally. In Python the keys `1` and `True` (and `0` and `False`) are one key, so an integer row name finds a YAML entry keyed `true` or `false`; the model treats them as different keys.
