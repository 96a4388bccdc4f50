# Campus Exchange Hub — a Dafny model of its core

Campus Exchange Hub is a Streamlit application with three parts:

- **Lost and found.** Students report lost or found items, with a 5-digit verification code. They browse and search the reports, and claim an open item by quoting its code.
- **Notes exchange.** Students upload notes for a subject, search them and download them.
- **Shared users table and analytics.** A users table with per-user activity counters, and dashboards built from counts over the stores.

This project models the logic behind those screens:

- **Stores.** The lost-and-found table, the in-memory notes store and the users table. Each is a class whose fields the operations update.
- **Services.** The services over those stores.
- **Utilities.** The validators and helpers.
- **UI decisions.** The decision ladders of the report, claim and upload forms.
- **Analytics.** The analytics counts.

Each file is one module:

| file | module | models |
|---|---|---|
| wrappers.dfy | Wrappers | `Option` |
| text.dfy | Text | the Python `str` operations the source uses: `strip`, `lower`, `in`, `replace`, slicing, `str(int)` |
| ordering.dfy | Ordering | Python's stable `sorted(..., reverse=True)` as an insertion sort, filters, counts and sums |
| tables.dfy | Tables | SQLite tables keyed by an AUTOINCREMENT id, listed in id order |
| tally.dfy | Tally | the `d[k] = d.get(k, 0) + w` loops: keys in first-appearance order and per-key sums |
| validators.dfy | Validators | utils/validators.py |
| helpers.dfy | Helpers | utils/helpers.py |
| lost_found_db.dfy | LostFoundDb | database/lost_found_db.py (class `ItemTable`) |
| lost_found_service.dfy | LostFoundService | services/lost_found_service.py |
| lost_found_ui.dfy | LostFoundUi | the form logic of ui/lost_found_ui.py |
| notes_db.dfy | NotesDb | database/notes_db.py (class `NotesStore`) |
| notes_service.dfy | NotesService | services/notes_service.py |
| notes_ui.dfy | NotesUi | the upload form and file icons of ui/notes_ui.py |
| users_db.dfy | UsersDb | database/users_db.py (class `UserTable`) |
| analytics.dfy | Analytics | services/analytics_service.py |

These are the main properties proved:

- **Lost-and-found table.**
  - Adding an item appends exactly one row under a fresh id, and the new row is last in the listing.
  - A claim sets only that row's status.
  - Potential matches are exactly the open items of the opposite type in the same category (case-insensitive), each listed once. Each scores 20 or 10, and the list is sorted by score and stable.
- **Forms.** The report and claim forms reach the store exactly when their documented checks pass, in the order the code runs them. The upload form builds its note exactly when its checks pass, reporting a missing field first; it makes no store call.
- **Users table.**
  - A signup fails, and changes nothing, exactly when the roll number or the email is taken.
  - After a signup, logging in with that email returns the new user. This holds whenever the stored roll numbers and the new email pass the app's validators.
  - An activity update raises one counter by exactly one, or changes nothing.
- **Analytics.**
  - Every histogram has one entry per distinct value, and each count is at least 1.
  - The counts add up to the number of rows.
  - The sorted distributions are ordered and stable.
  - The per-subject totals add up to the totals in `get_notes_stats`.

## Model

| member | source | states |
|---|---|---|
| Text.Lower | utils/helpers.py:107 | `str.lower()`: same length, each character lower-cased, others kept |
| Text.LowerIdempotent | utils/helpers.py:107 | lower-casing twice is lower-casing once |
| Text.LStrip | utils/validators.py:45 | the left half of `strip()`: a suffix of `s` that does not start with whitespace, with only whitespace removed |
| Text.RStrip | utils/validators.py:45 | the right half of `strip()`: a prefix of `s` that does not end with whitespace, with only whitespace removed |
| Text.Strip | utils/validators.py:45 | `s.strip()`: no longer than `s`, a prefix of `s` with its leading whitespace removed, and neither starting nor ending with whitespace |
| Text.StripEmptyIff | utils/validators.py:45 | `s.strip()` is empty exactly when every character of `s` is whitespace |
| Text.StripShorter | utils/validators.py:84 | stripping never lengthens a string |
| Text.StripNoSurroundingSpace | utils/validators.py:84 | a string with no whitespace at either end strips to itself |
| Text.ContainsIff | services/lost_found_service.py:116-119 | `sub in s` holds exactly when `sub` occurs at some position of `s` |
| Text.ContainsOccurs | services/lost_found_service.py:116-119 | `sub in s` yields a position where `sub` occurs |
| Text.OccursContains | services/lost_found_service.py:116-119 | an occurrence at any position makes `sub in s` true |
| Text.Contains | services/notes_service.py:77-80 | `sub in s` holds when `sub` is a prefix of `s`, and only when `sub` is no longer than `s` |
| Text.ReplaceChar | ui/notes_ui.py:167 | `str.replace` of one character: same length, each occurrence replaced, the rest kept |
| Text.RemoveChar | utils/validators.py:35 | `str.replace(c, '')`: the result holds no `c`, and keeps every other character |
| Text.LastIndexOf | ui/notes_ui.py:167 | the last position holding the character, or -1 when there is none |
| Text.FirstIndexOf | utils/validators.py:17 | the first position holding the character, or -1 when there is none |
| Text.OccurrencesAppend | utils/validators.py:17 | occurrences of a character in a concatenation add up |
| Text.SliceTo | services/notes_service.py:70 | `s[:n]` with Python's negative-index semantics: a prefix of `s` of the stated length |
| Text.DecimalRoundTrip | services/lost_found_service.py:12 | reading back the decimal text of a natural number gives the number |
| Text.DecimalLength | services/lost_found_service.py:12 | a number in [10000, 99999] has exactly 5 decimal digits |
| Text.IntToDecimal | utils/helpers.py:41 | `str(n)`: starts with '-' exactly for negative numbers, digits everywhere else, and the digits read back as the number's magnitude |
| Ordering.StrLessIsStrictWeak | services/lost_found_service.py:107 | string comparison is irreflexive, transitive and total |
| Ordering.SortBy | services/lost_found_service.py:89 | `sorted` returns a permutation of its input |
| Ordering.SortBySorted | services/lost_found_service.py:89 | under a strict weak order the result of `sorted` is ordered |
| Ordering.SortByStableAll | services/lost_found_service.py:89 | for every key, the elements carrying it appear in the output in their input order |
| Ordering.SortByStable | services/lost_found_service.py:89 | elements with equal keys keep their input order |
| Ordering.SortedPrefix | services/notes_service.py:70 | a prefix of a sorted list is sorted and a sub-multiset |
| Ordering.FilterMultiset | services/lost_found_service.py:62-68 | a comprehension filter keeps each passing element with its multiplicity and drops the rest |
| Ordering.FilterAll | services/lost_found_service.py:116 | a filter every element passes returns its input |
| Ordering.FilterIncreasing | services/lost_found_service.py:62-68 | a comprehension filter keeps the kept elements in their input order |
| Ordering.IncreasingUnique | services/lost_found_service.py:62-68 | two lists in strictly increasing key order with the same elements are equal, so a filter's result is fixed by what it keeps and its order |
| Ordering.SortedCut | services/notes_service.py:98-102 | cutting a sorted list, nothing left behind ranks above anything kept |
| Ordering.WithKeyPrefix | services/notes_service.py:69-70 | a prefix keeps, for every key, a prefix of the elements with that key |
| Ordering.SameKeyIncreasing | ui/lost_found_ui.py:430 | a stable sort of a list in increasing id order keeps elements with equal keys in increasing id order |
| Ordering.WithKeyOrder | ui/lost_found_ui.py:430 | when the elements with one key are in increasing id order, any two of them are |
| Ordering.CountDisjoint | services/analytics_service.py:14-17 | counts under two disjoint conditions add up to at most the length, and to exactly the length when every element meets one |
| Ordering.SortBySum | services/analytics_service.py:50 | sorting keeps a sum over the elements |
| Ordering.DistinctPermutation | services/analytics_service.py:50 | a reordering of a sequence without repeats has no repeats |
| Tables.Ids | database/lost_found_db.py:59 | the ids of a table in ascending order, each stored, every stored one present |
| Tables.ListingLength | database/lost_found_db.py:55-63 | the listing has one row per stored id |
| Tables.ListingAppend | database/lost_found_db.py:43-50 | inserting under an id above all stored ids appends the row to the listing |
| Tally.Keys | services/analytics_service.py:47-49 | the keys of a dict filled in a loop: distinct, no more than the elements, and exactly the values that occur |
| Tally.KeysFirstAppearance | services/analytics_service.py:47-49 | the keys are in first-appearance order: a key listed earlier occurs in the input before any occurrence of a key listed later |
| Tally.KeysCard | services/analytics_service.py:32-33 | the number of dict keys equals the size of `set(key(x) for x in s)` |
| Tally.Tallies | services/analytics_service.py:47-49 | each key paired with the sum of the weight over its elements |
| Tally.KeyedCountPositive | services/analytics_service.py:49 | every key that occurs is counted at least once |
| Tally.TalliesTotal | services/analytics_service.py:47-49 | the per-key sums add up to the sum over the whole sequence |
| Tally.TallyLoop | services/analytics_service.py:46-49 | the loop `d[k] = d.get(k, 0) + w(x)` ends with the keys in first-appearance order and each key's sum |
| Validators.ValidateEmail | utils/validators.py:8-21 | empty → "Email cannot be empty"; otherwise valid exactly when the pattern matches (with `$` allowing one final newline), else "Invalid email format" |
| Validators.AcceptedEmailOneAt | utils/validators.py:17 | an accepted email has exactly one '@', preceded by a non-empty run of local characters |
| Validators.EmailSplitOneAt | utils/validators.py:17 | a string of the email pattern's shape has exactly one '@', at the split point |
| Validators.ValidateRollNo | utils/validators.py:23-38 | the three rejection messages, in order: empty, shorter than 3, other than letters, digits, '-' and '/' |
| Validators.RollNoAcceptedIff | utils/validators.py:31-38 | accepted exactly when at least 3 characters, all letters, digits, '-' or '/', and at least one letter or digit |
| Validators.RollNoIsNeverEmail | utils/validators.py:17-35 | no string is both an accepted roll number and an accepted email |
| Validators.RollNoSeparatorsOnly | utils/validators.py:35-36 | a roll number of separators only, such as "---" or "/-/", is rejected |
| Validators.ValidateName | utils/validators.py:40-54 | valid exactly when the stripped name has at least 2 characters and the raw name at most 100, with each message |
| Validators.FirstPresent | utils/validators.py:65-68 | the first listed invalid character present in the name, or none |
| Validators.ValidateFileName | utils/validators.py:56-74 | valid exactly when non-empty, free of `<>:"\|?*` and holding a '.'; the message names the first invalid character |
| Validators.ValidateDescription | utils/validators.py:76-92 | valid exactly when the stripped text is non-empty and its length is within the bounds, with each message |
| Validators.DescriptionDefaultBounds | utils/validators.py:76 | with the default bounds: valid exactly when the stripped text has 10 to 500 characters |
| Validators.ValidateCategory | utils/validators.py:94-105 | valid exactly when non-empty and one of the listed categories |
| Helpers.TruncateText | utils/helpers.py:67-78 | text within the limit is returned unchanged; longer text becomes its first `max_length - len(suffix)` characters plus the suffix |
| Helpers.TruncateIdempotent | utils/helpers.py:67-78 | truncating twice is truncating once when the limit covers the suffix |
| Helpers.TruncateBelowSuffixLength | utils/helpers.py:78 | with a limit below the suffix length the result is longer than the input |
| Helpers.SanitizeFilename | utils/helpers.py:124-139 | the replace loop yields the sanitized name |
| Helpers.SanitizedSpec | utils/helpers.py:135-137 | same length; each invalid character becomes '_' and every other character is kept |
| Helpers.SanitizedIdempotent | utils/helpers.py:124-139 | sanitizing twice is sanitizing once |
| Helpers.GetColorForStatus | utils/helpers.py:90-107 | the mapped colour of the lower-cased status, and the default grey exactly when the status is not mapped |
| Helpers.ColorIgnoresCase | utils/helpers.py:107 | statuses equal up to case get the same colour |
| Helpers.StatusColorsDistinct | utils/helpers.py:100-106 | the five mapped statuses have five different colours |
| Helpers.CalculateMatchScore | utils/helpers.py:152-167 | the accumulated score is the number of matching criteria, between 0 and 3 |
| Helpers.MatchPointsSymmetric | utils/helpers.py:156-167 | the score does not depend on the order of the two items |
| Helpers.MatchPointsSelf | utils/helpers.py:156-167 | an item scores 3 against itself |
| Helpers.EmptyNameAlwaysScores | utils/helpers.py:164-167 | a missing or empty name is contained in every name, so it always scores the name point |
| Helpers.GetRelativeDate | utils/helpers.py:29-47 | 0 days → "Today", 1 → "Yesterday", any other count below 7 → "N days ago", 7 to 29 → whole weeks and 30 on → whole months ago, plural from 2 units on |
| Helpers.RelativeDateSingular | utils/helpers.py:43-47 | "1 week ago" exactly for 7 to 13 days, "1 month ago" exactly for 30 to 59 days |
| Helpers.FormatNumber | utils/helpers.py:121-122 | below 1000: the decimal text, followed by a space and the suffix when the suffix is non-empty and does not end in whitespace |
| LostFoundDb.RowFor | database/lost_found_db.py:43-49 | the stored row: every given field under the new id, the given status or 'open', the given date or today's |
| LostFoundDb.WithStatus | database/lost_found_db.py:81-84 | the row with the new status, and the new `matched_with` only when one is given |
| LostFoundDb.ItemTable.constructor | database/lost_found_db.py:16-37 | a freshly created items table: empty, next id 1 |
| LostFoundDb.ItemTable.GetAllItems | database/lost_found_db.py:55-63 | every stored row once, in ascending id order |
| LostFoundDb.ItemTable.GetItemById | database/lost_found_db.py:65-75 | the row under the id, or none exactly when it is absent |
| LostFoundDb.ItemTable.AddItem | database/lost_found_db.py:39-53 | inserts one row under the next id and returns that id; the listing gains exactly that row at the end |
| LostFoundDb.ItemTable.UpdateItemStatus | database/lost_found_db.py:77-86 | only that row changes, and an absent id changes nothing |
| LostFoundDb.ItemTable.DeleteItem | database/lost_found_db.py:88-94 | removes exactly that row |
| LostFoundService.GenerateVerificationCode | services/lost_found_service.py:10-12 | exactly 5 decimal digits, the first not '0' |
| LostFoundService.AddLostItem | services/lost_found_service.py:14-34 | a new 'lost' row under a fresh id: status 'open', no match, a verification code, the given fields |
| LostFoundService.AddFoundItem | services/lost_found_service.py:36-56 | the same for 'found' |
| LostFoundService.AddReport | services/lost_found_service.py:14-56 | the shared body of both: one new row of the given type under the table's next id, all other rows unchanged, status 'open', no match, a 5-digit code, the given fields |
| LostFoundService.ListedOnce | database/lost_found_db.py:55-63 | a listing in increasing id order holds each row once |
| LostFoundService.GetLostItems | services/lost_found_service.py:62-64 | exactly the rows of type 'lost', each with its multiplicity, in increasing id order (the listing order); the two together fix the list |
| LostFoundService.GetFoundItems | services/lost_found_service.py:66-68 | exactly the rows of type 'found', in increasing id order (the listing order) |
| LostFoundService.GetItemsByStatus | services/lost_found_service.py:123-125 | exactly the rows whose status equals the argument, in increasing id order (the listing order) |
| LostFoundService.GetRecentItems | services/lost_found_service.py:105-109 | the first `limit` rows of the stable latest-date-first sort: exactly `min(limit, n)` of them for a non-negative limit, sorted, drawn from the table, and no row left out is later than a row kept |
| LostFoundService.RecentCut | services/lost_found_service.py:105-109 | the cut of a date-sorted listing is sorted, a sub-multiset, and holds the latest rows |
| LostFoundService.OppositeType | services/lost_found_service.py:79 | 'found' for 'lost', and 'lost' for every other type |
| LostFoundService.CandidatesSpec | services/lost_found_service.py:79-88 | each candidate is open, of the opposite type and of the same category up to case, and scores 20 or 10 by location; every such row is a candidate |
| LostFoundService.FindPotentialMatches | services/lost_found_service.py:74-90 | every qualifying row exactly once with its score, nothing else, sorted by score with stable ties, the store untouched |
| LostFoundService.ScanCandidates | services/lost_found_service.py:79-88 | the scan loop collects exactly the qualifying rows with their scores, in listing order |
| LostFoundService.ClaimItem | services/lost_found_service.py:92-103 | true exactly when the id is present; then only that row's status becomes 'claimed', otherwise nothing changes |
| LostFoundService.SearchHitsSpec | services/lost_found_service.py:111-121 | a row is a hit exactly when the lower-cased query occurs in its lower-cased name, category, location or description |
| LostFoundService.SearchListing | services/lost_found_service.py:114-120 | the search loop returns the hits in listing order |
| LostFoundService.SearchItems | services/lost_found_service.py:111-121 | the hits over the whole table, in listing order |
| LostFoundService.SearchEmptyQueryKeepsAll | services/lost_found_service.py:116 | an empty query returns every row |
| LostFoundUi.CheckReport | ui/lost_found_ui.py:170-183 | the report form's outcome: missing fields, then a bad name, then a bad description, each with its message |
| LostFoundUi.ReportPassesIff | ui/lost_found_ui.py:170-183 | the report passes exactly when all five fields are filled, the name is valid and the description is valid |
| LostFoundUi.SubmitReport | ui/lost_found_ui.py:168-206 | a report that passes stores one new row, with the category as item name; any other outcome leaves the table unchanged |
| LostFoundUi.BrowseFilter | ui/lost_found_ui.py:409-422 | the rows of the chosen type, of exactly the chosen category, and with a status equal to the chosen one up to case, in increasing id order (the listing order) |
| LostFoundUi.NarrowMultiset | ui/lost_found_ui.py:415-422 | the category and status filters keep exactly the rows that pass both, with their multiplicity |
| LostFoundUi.NarrowIncreasing | ui/lost_found_ui.py:415-422 | the category and status filters keep the listing order |
| LostFoundUi.BrowseItems | ui/lost_found_ui.py:430 | the filtered rows, latest date first; for each date the rows carrying it are those of the filtered list in its order, so rows with equal dates appear in increasing id order |
| LostFoundUi.CodeText | ui/lost_found_ui.py:590 | a stored code reads as itself, a missing code as "None" |
| LostFoundUi.CheckClaim | ui/lost_found_ui.py:516-607 | the claim ladder's outcome: not offered, missing fields, wrong code, short proof, blank contact, or the claim with stripped proof and contact |
| LostFoundUi.ClaimIff | ui/lost_found_ui.py:516-607 | a claim is made exactly when the item is open, a user is logged in, all three inputs are non-empty, the stripped codes agree, the stripped proof has at least 10 characters and the stripped contact is non-empty |
| LostFoundUi.EmptyFieldBeforeCode | ui/lost_found_ui.py:588-589 | an empty input is reported before the code is compared |
| LostFoundUi.WrongCodeBeforeProof | ui/lost_found_ui.py:590-594 | a wrong code is reported whatever the proof and contact |
| LostFoundUi.ShortProofNotWrongCode | ui/lost_found_ui.py:595-596 | with the right code a short proof is reported as such, never as a wrong code |
| LostFoundUi.BlankContactRejected | ui/lost_found_ui.py:588-598 | a whitespace-only contact passes the emptiness check and is rejected by the later one |
| LostFoundUi.MissingCodeNeedsNoneText | ui/lost_found_ui.py:590 | an item without a code is claimed only with the text "None" |
| LostFoundUi.SubmitClaim | ui/lost_found_ui.py:600-607 | `claim_item` is called exactly when the ladder ends in a claim, with the user's name and email and the stripped proof and contact |
| NotesDb.ConcatLength | database/notes_db.py:96-101 | the flattened list is as long as all the subject lists together |
| NotesDb.ConcatMembers | database/notes_db.py:96-101 | a note is in the flattened list exactly when it is in one subject's list |
| NotesDb.SeedListing | database/notes_db.py:11-80 | the seed data lists five notes with ids 1 to 5 in order |
| NotesDb.SeedWellKeyed | database/notes_db.py:11-83 | every seed note sits under its own subject with an id below the counter 6 |
| NotesDb.NotesStore.constructor | database/notes_db.py:11-83 | the store starts with the seed subjects and notes and the counter 6 |
| NotesDb.NotesStore.AllNotes | database/notes_db.py:96-101 | every stored note, each under its subject, with an id below the counter |
| NotesDb.NotesStore.GetNextNoteId | database/notes_db.py:85-90 | returns the counter and raises it by one; the id is above every stored id |
| NotesDb.NotesStore.GetAllSubjects | database/notes_db.py:92-94 | the dict's keys, once each, in insertion order |
| NotesDb.NotesStore.GetAllNotes | database/notes_db.py:96-101 | the extend loop yields every subject's list in key order |
| NotesDb.NotesStore.ResetDatabase | database/notes_db.py:103-107 | the store becomes empty and the counter 1 |
| NotesService.UploadNote | services/notes_service.py:9-25 | the note with the given fields, the assigned id, today's date, 0 downloads and rating 0.0 |
| NotesService.UploadFoundBySearch | services/notes_service.py:72-82 | an uploaded note is found by searching for its subject |
| NotesService.GetSubjects | services/notes_service.py:35-38 | each subject of a stored note once, in some order |
| NotesService.DistinctSubjects | services/notes_service.py:38 | `list(set(...))`: each subject of the given notes exactly once, and nothing else |
| NotesService.SubjectsBySpec | services/notes_service.py:64 | a contributor's subjects are exactly the subjects of that uploader's notes |
| NotesService.ContributorTable | services/notes_service.py:52-68 | one record per uploader, in first-appearance order, with uploads, downloads and subjects |
| NotesService.ContributorNamesDistinct | services/notes_service.py:53-61 | no uploader is named by two records |
| NotesService.ContributorNamesCover | services/notes_service.py:53-61 | every uploader of a note has a record |
| NotesService.ContributorNamesUploaded | services/notes_service.py:53-61 | every record names an uploader of some note |
| NotesService.ContributorUploadsPositive | services/notes_service.py:62 | every record counts at least one upload |
| NotesService.ContributorTableSums | services/notes_service.py:62-63 | uploads add up to the number of notes and downloads to all downloads |
| NotesService.GatherContributors | services/notes_service.py:52-64 | the record-updating loop yields the contributor table |
| NotesService.RecordsInOrder | services/notes_service.py:65-68 | the second loop lists the gathered records in first-appearance order, which is the contributor table |
| NotesService.GetTopContributors | services/notes_service.py:49-70 | at most `limit` records, most uploads first, drawn from the contributor table, no record left out having more uploads than one kept, and equal counts in table order |
| NotesService.ContributorsCut | services/notes_service.py:69-70 | the cut is sorted on uploads, drawn from the table, and no record left out has more uploads than one kept |
| NotesService.ContributorsStable | services/notes_service.py:69-70 | for every upload count, the cut keeps a prefix of the table's records with that count |
| NotesService.NoteHitsSpec | services/notes_service.py:72-82 | a note is a hit exactly when the lower-cased query occurs in its lower-cased subject, topic, description or uploader |
| NotesService.SearchNotes | services/notes_service.py:72-82 | the search loop returns the hits in store order |
| NotesService.ScanNotes | services/notes_service.py:75-82 | the filtering loop collects exactly the notes whose subject, topic, description or uploader contains the lower-cased query, in store order |
| NotesService.InSemesterSpec | services/notes_service.py:84-90 | exactly the notes of that semester |
| NotesService.GetNotesBySemester | services/notes_service.py:84-90 | the loop returns the notes of that semester in store order |
| NotesService.GetRecentNotes | services/notes_service.py:92-96 | the first `limit` notes of the stable latest-upload-first sort: sorted, drawn from the store, all of them when `limit` covers the store, and no note left out uploaded later than a note kept |
| NotesService.LatestCut | services/notes_service.py:92-96 | the cut of an upload-date-sorted listing is sorted, a sub-multiset, and holds the latest notes |
| NotesService.GetPopularNotes | services/notes_service.py:98-102 | the first `limit` notes of the stable most-downloads-first sort: sorted, drawn from the store, all of them when `limit` covers the store, and no note left out has more downloads than a note kept |
| NotesService.PopularCut | services/notes_service.py:98-102 | the cut of a downloads-sorted listing is sorted, a sub-multiset, and holds the most downloaded notes |
| NotesUi.Stem | ui/notes_ui.py:167 | `rsplit('.', 1)[0]`: a prefix of the name |
| NotesUi.SplitAtLastDot | ui/notes_ui.py:167 | for `base.ext` with no '.' in `ext` the stem is `base` and the extension is `ext` |
| NotesUi.DeriveTopic | ui/notes_ui.py:167 | the stem with every '_' and '-' turned into a space, and no other change |
| NotesUi.CheckUpload | ui/notes_ui.py:153-198 | the upload form's outcome: missing fields, bad name, file too large, bad description, or the note |
| NotesUi.UploadedIff | ui/notes_ui.py:153-198 | a note is uploaded exactly when all fields and the file are present, the name is valid, the file is at most 10 MiB and the description is valid; a missing field or file is reported first, and a bad description only after the name and size pass |
| NotesUi.UploadedNote | ui/notes_ui.py:182-192 | an uploaded note carries the derived topic, the given fields, no downloads and a zero rating |
| NotesUi.LargeFileRejected | ui/notes_ui.py:170-172 | a file above 10 MiB is never uploaded, and is reported as too large once the fields and the name pass |
| NotesUi.NameBeforeSize | ui/notes_ui.py:157-172 | the name is checked before the size |
| NotesUi.FileExtension | ui/notes_ui.py:422 | the text after the last '.', or "file" when there is no '.' |
| NotesUi.FileIcon | ui/notes_ui.py:424-434 | the icon mapped to the extension when it is listed, the default one otherwise |
| NotesUi.ExtensionOfDotted | ui/notes_ui.py:422-434 | the icon does not depend on the extension's case |
| NotesUi.NoDotDefaultIcon | ui/notes_ui.py:422-434 | a name without a '.' gets the default icon |
| UsersDb.FirstMatch | database/users_db.py:70-72 | the first row whose email or roll number is the key, or -1 |
| UsersDb.Login | database/users_db.py:66-76 | a login that succeeds returns the summary of a stored user whose email or roll number is the key and whose hash is the password's hash |
| UsersDb.LoginFirstMatch | database/users_db.py:70-76 | login returns the lowest-id matching user's summary when the hash agrees, and none when that user's hash differs or no user matches |
| UsersDb.LoginAfterSignup | database/users_db.py:50-76 | after a signup, logging in with the new email and the same password returns the new user, when no earlier roll number equals that email |
| UsersDb.LoginAfterSignupByRollNo | database/users_db.py:50-76 | the same through the roll number, when no earlier email equals it |
| UsersDb.LoginAfterValidatedSignup | database/users_db.py:50-76 | with validated roll numbers and email, login by email after signup always returns the new user |
| UsersDb.Bump | database/users_db.py:102-107 | a counted type raises the three-counter total by exactly 1; no counter falls; an unknown type changes nothing |
| UsersDb.BumpNamesItsCounter | database/users_db.py:102-107 | each counted type raises its own counter |
| UsersDb.StatsOf | database/users_db.py:121-128 | a user's entry, with zero counters when there is no activity row |
| UsersDb.StatsListingSpec | database/users_db.py:115-129 | one entry per user, each with its own counters |
| UsersDb.CollectStats | database/users_db.py:120-128 | the loop builds one entry per joined row |
| UsersDb.UserTable.constructor | database/users_db.py:16-45 | freshly created users and activity tables: empty, next id 1, with the given password hash |
| UsersDb.UserTable.SignupUser | database/users_db.py:50-62 | false, with nothing changed, exactly when the roll number or email is taken; otherwise one user row and one zero activity row under the next id |
| UsersDb.UserTable.LoginUser | database/users_db.py:66-76 | as `LoginFirstMatch`, on the table |
| UsersDb.UserTable.UpdateUserActivity | database/users_db.py:98-109 | only that user's activity row changes, by `Bump`; a missing row or an unknown type changes nothing |
| UsersDb.UserTable.AllUserStats | database/users_db.py:111-129 | one entry per user, with missing activity read as zeros |
| UsersDb.UserTable.GetAllUsers | database/users_db.py:111-129 | returns those entries in id order |
| Analytics.GetLostFoundStats | services/analytics_service.py:10-23 | the total is the number of rows; each count equals the matching query's size; lost + found ≤ total, with equality when every type is lost or found; open + claimed ≤ total |
| Analytics.NotesCountsOf | services/analytics_service.py:30-40 | the subject and contributor counts are the numbers of distinct subjects and uploaders, at most the number of notes |
| Analytics.GetNotesStats | services/analytics_service.py:27-41 | as above on the store, with at most as many subjects as store keys and the sum of downloads |
| Analytics.HistogramCounts | services/analytics_service.py:46-49 | each count is how often its key occurs, at least 1, and the counts add up to the number of elements |
| Analytics.HistogramKeysOccur | services/analytics_service.py:46-49 | every pair names a value that occurs |
| Analytics.HistogramKeysCovered | services/analytics_service.py:46-49 | every value that occurs has a pair |
| Analytics.HistogramKeysDistinct | services/analytics_service.py:46-49 | no value has two pairs |
| Analytics.ReorderedPairs | services/analytics_service.py:50 | a reordered histogram keeps each pair's count and the occurrence of its key |
| Analytics.ReorderedCovers | services/analytics_service.py:50 | a reordered histogram still has a pair for every value that occurs |
| Analytics.ReorderedDistinct | services/analytics_service.py:50 | a reordered histogram still names each value once |
| Analytics.CountBy | services/analytics_service.py:46-50 | the counting loop followed by `.items()` yields the histogram |
| Analytics.DistributionOrder | services/analytics_service.py:50-60 | sorted by count, most first, stable for equal counts, still summing to the number of elements |
| Analytics.GetCategoryDistribution | services/analytics_service.py:43-51 | one pair per distinct category with its count, ordered by count, counts summing to the number of rows |
| Analytics.GetLocationDistribution | services/analytics_service.py:53-60 | the same over locations |
| Analytics.DailyAscending | services/analytics_service.py:124-128 | the date histogram sorted by date is in strictly ascending date order |
| Analytics.DailySum | services/analytics_service.py:124-128 | the sorted date counts add up to the number of rows |
| Analytics.GetDailyActivity | services/analytics_service.py:120-129 | the same on the table |
| Analytics.GetSemesterWiseNotes | services/analytics_service.py:131-138 | one pair per semester in first-appearance order, counts at least 1 and summing to the number of notes |
| Analytics.GetTopDownloadedNotes | services/analytics_service.py:66-70 | the first `limit` notes of the stable most-downloads-first sort: exactly `limit` of them when the store has that many, sorted, drawn from the store, and no note left out has more downloads than a note kept |
| Analytics.SubjectLoop | services/analytics_service.py:75-81 | the record-updating loop yields each subject's note count and download sum |
| Analytics.SubjectTotalsConserved | services/analytics_service.py:74-81 | the per-subject counts add up to the number of notes and the downloads to all downloads |
| Analytics.GetSubjectWiseStats | services/analytics_service.py:72-86 | per-subject totals whose sums equal the totals in `get_notes_stats` |
| Analytics.ActivityRowOf | services/analytics_service.py:100-116 | a user's entry: items reported under the name, notes counted for the name, downloads, and their sum as total |
| Analytics.CollectActivity | services/analytics_service.py:98-116 | the loop appends one entry per user in order |
| Analytics.ActivityOrder | services/analytics_service.py:117 | the sort keeps every entry, orders by total, and keeps equal totals in user order |
| Analytics.GetUserActivityStats | services/analytics_service.py:88-118 | one entry per user, ordered by total activity with stable ties, each total the sum of its three counts |

## Left out

- **Scope of the model.**
  - SQLite connections, cursors, commits and table creation, including the drop-and-recreate in `_init_db`. Tables are maps from id to row.
  - A listing without ORDER BY is taken to be in ascending id order. The login query takes the lowest-id matching row first; SQLite may in fact use an index and return another matching row first, and the model does not capture that.
  - Streamlit rendering, the session state and the `claiming_<id>` flag, HTML cards, `st.rerun`, balloons and the debug line.
  - Saving uploaded images and note files to disk. The stored image path is a parameter.
- **Parameters.** The current date and `datetime.now()` are parameters: `today` in the add functions and in `upload_note`, and the day count in `get_relative_date`.
- **Not modelled.**
  - `format_date`, `get_date_difference` and `generate_id` depend on the clock and on date parsing.
  - `random.randint` is a nondeterministic choice in [10000, 99999].
  - SHA-256 is the function `hash` that a `UserTable` is built with.
- **Floating point.**
  - `match_rate`, `avg_downloads`, the per-subject averages and the ratings are not modelled.
  - The percentage of `calculate_match_percentage` is not modelled; the integer score before the division is.
- FormatNumber: only numbers below 1000 are modelled. The "K" and "M" branches format a float.
- **Dangling code in the notes layer.**
  - notes_db defines none of `add_note`, `get_notes_by_subject`, `get_note_by_id`, `increment_download`, `update_rating` or `get_notes_count_by_user`. So `upload_note` takes the assigned id as a parameter, and `get_user_activity_stats` takes the per-name note count as a function.
  - `get_notes_by_subject` and `get_note_by_id` in the notes service call themselves without end and are not modelled.
  - `increment_download_count` only calls the missing `increment_download` and is not modelled.
- **Package imports.** database/__init__.py:5-7 imports `lost_found_items`, `current_user` and `user_sessions`, none of which the database modules define, so the package cannot be imported as written; the model uses the modules directly.
- **Dangling code in the lost-and-found database.** `get_next_id` and `reset_database` in the lost-and-found database use globals that do not exist and are not modelled.
- **Pass-throughs.** `get_all_items`, `get_item_by_id` and `get_all_notes_list` in the services pass straight through to the database, and are modelled there.
- **Users table.**
  - `get_user_by_id` and `get_user_by_email` are not modelled; they are plain key lookups.
  - The UI calls `update_user_activity` with one argument, although it takes two; the model covers the two-argument function only.
  - The session helpers that app.py imports from users_db are not defined there.
- **Unicode text handling.**
  - `str.lower`, `isalnum` and `isalpha` are modelled on ASCII letters and digits only.
  - `str.isspace` uses Python's set of whitespace characters.
  - The email pattern is modelled on whole strings and does not model `re` itself.
- **Set ordering.**
  - NotesService.GetSubjects: `list(set(...))` has no defined order, so the model promises the subjects once each in some order.
  - A contributor's subjects are a set rather than a list.
- **Behaviour the code does not have.**
  - `claim_item` stores no claimer details and does not check that the item is still open.
  - No operation sets the status 'matched'.
