# Twitter following exporter — a Dafny model

This project models the core of a console script, `main.py`. The script exports the accounts a Twitter user follows to a CSV file, and it does so without the official API. One run of its export option goes through these steps:

- It reads a username and strips surrounding whitespace. A blank name is refused.
- It validates the name by fetching the public profile page. The page can show that the account is suspended, missing or private.
- It fetches the public "following" page and keeps the anchors whose `href` looks like a profile link (`^/[\w]+$`). It drops the user's own link and `/home`, turns each remaining href into an `@handle`, and removes duplicates while keeping first-seen order.
- If the list is non-empty, it writes `media/<MMDDYYYY-HHMMSS>-<username>.csv`. The file has a header row `Following Usernames`, followed by one handle per row.

Every step short-circuits. A failed or empty step prints one line and ends the run.

The model is split into six modules, one file each:

- `Results` (`results.dfy`) holds the `Option` and `Result` types. `Ok(v)` and `Err(m)` stand for the script's `(True, v)` and `(False, m)` pairs.
- `Text` (`text.dfy`) holds the Python string operations the core relies on:
  - `str.strip`, with the exact whitespace set of `str.isspace`;
  - `str.lower` on ASCII letters;
  - the substring test `in`;
  - decimal rendering of a count.
- `Profile` (`profile.dfy`) models `validate_username`. Its input is the outcome of the profile request: a status and body, or a request exception.
- `Followings` (`followings.dfy`) models `get_followings`. Its input is the outcome of the page request: the `href` of every anchor in document order, or a request exception. This module is imperative, like the source:
  - the collecting loop and the `seen`-set de-duplication are methods with loops;
  - each is proved equal to a recursive specification function (`Collected`, `Dedup`);
  - every stated property is proved about those functions.
- `CsvExport` (`csv_export.dfy`) models `save_to_csv`. It covers the timestamp format, the file name and the rows handed to the CSV writer. The clock reading and the outcome of the write are inputs.
- `Exporter` (`exporter.dfy`) models `twitter_option` as a function. That function takes the typed line and the answers the steps give, and returns the calls made, the lines printed and the file created.

Two behaviours of the code are modelled exactly as written, because they are easy to overlook:

- BeautifulSoup applies the compiled pattern with `re.search`. There, `$` also matches just before one final newline, so the href `"/bob\n"` passes the filter and yields the handle `"@bob\n"`. `Followings.MatchesProfileLink` and `Followings.IsHandle` include this case.
- The self and home filters compare whole hrefs (`/alice`, `/home`). So these filters exclude the user's own handle and `@home` only because every profile link starts with `/` (`Followings.ProfileLinkHandle`).

## Model

| member | source | states |
|---|---|---|
| Text.Strip | main.py:86 | The result is a slice of the typed line with only whitespace before and after it. It is empty exactly when every character is whitespace. Otherwise it starts and ends with a non-whitespace character. |
| Text.Lower | main.py:24 | `.lower()` keeps the length and leaves no capital letter. Each capital becomes its small letter; every other character is kept. |
| Text.LowerIdempotent | main.py:24 | Lower-casing an already lower-cased text changes nothing. |
| Text.ContainsLower | main.py:24-28 | A substring stays a substring after both strings are lower-cased. The lower-cased markers therefore catch the phrase in any letter case. |
| Text.Decimal | main.py:111 | The count printed is a non-empty string of digits, without a leading zero, whose value is the number of handles. |
| Profile.Classify | main.py:23-35 | Definition of the if-chain, checks in source order. Its properties are carried by `Profile.AvailableOnlyWithoutMarkers`, `Profile.PrivateExactlyWhenOnlyMarker`, `Profile.SuspendedInAnyCase`, `Profile.MissingInAnyCase` and `Profile.NotFoundBeforePrivate`. |
| Profile.ValidateUsername | main.py:13-38 | The validity flag is true exactly when the message is "User exists and is available". A request exception gives `(False, "Error checking username: " + text)`. |
| Profile.AvailableOnlyWithoutMarkers | main.py:23-35 | A profile is available exactly when four things hold: the lower-cased body lacks "account suspended", the status is not 404, the lower-cased body lacks "doesn't exist", and the raw body lacks "These Tweets are protected". |
| Profile.SuspendedInAnyCase | main.py:24-25 | A body containing "account suspended" in any letter case is reported suspended, whatever the status, 404 included. |
| Profile.MissingInAnyCase | main.py:28-29 | A body containing "doesn't exist" in any letter case is reported not found, whatever the status, unless it also says the account is suspended. |
| Profile.NotFoundBeforePrivate | main.py:28-33 | Status 404 gives not found even when the body carries the privacy marker, because absence is checked before privacy. |
| Profile.PrivateExactlyWhenOnlyMarker | main.py:23-33 | A profile is private exactly when three checks pass (the lower-cased body lacks "account suspended", the status is not 404, the lower-cased body lacks "doesn't exist") and the raw body contains "These Tweets are protected". |
| Profile.OnlyPrivacyCheckApplies | main.py:23-35 | Proof helper for the two marker examples. For a status-200 body without the letters `u` and `x`, only the privacy check can fire; without a `T`, the account is available. |
| Profile.ProtectedMarkerRecognised | main.py:32-33 | Example: the privacy marker trips none of the earlier checks. A status-200 body that is exactly "These Tweets are protected" is reported private. |
| Profile.ProtectedMarkerIsCaseSensitive | main.py:32-33 | The privacy marker is matched case-sensitively. The same sentence in lower case is not recognised, and the account is reported available. |
| Followings.MatchesProfileLink | main.py:52 | Definition of the pattern `^/[\w]+$` under `re.search`: a slash, then one or more ASCII word characters, optionally followed by one final newline. Its consequences are carried by `Followings.ProfileLinkHandle` and `Followings.HandleInjective`. |
| Followings.ProfileLinks | main.py:52 | The anchor filter keeps exactly the hrefs matching the pattern and never adds any. Order and multiplicity are stated by `Followings.ProfileLinksAppend`. |
| Followings.ProfileLinksAppend | main.py:52 | The filter works href by href in document order: the filtered concatenation is the concatenation of the filtered parts. |
| Followings.ProfileLinksKeepAll | main.py:52 | When every href is a profile link, the filter keeps them all, in order. |
| Followings.IsKept | main.py:57 | Definition of the loop guard: non-empty and neither `/<username>` nor `/home`. Its consequence for the output is `Followings.ProfileLinkHandle`. |
| Followings.Handle | main.py:58 | Definition of `f"@{href[1:]}"`. Its properties are `Followings.ProfileLinkHandle` and `Followings.HandleInjective`. |
| Followings.CollectHandles | main.py:54-58 | The collecting loop produces `Collected`: for each kept href in order, `"@" + href[1:]`. An empty href, `/<username>` and `/home` are skipped. |
| Followings.CollectedElements | main.py:54-58 | The collected handles are exactly the handles of the kept hrefs. |
| Followings.CollectedAppend | main.py:54-58 | The loop works href by href in order: the handles of a concatenation are the handles of each part, in turn. |
| Followings.LinkBetween | main.py:52-58 | A kept profile link between two stretches of hrefs stays between their links, and its handle between their handles. |
| Followings.CollectedAllKept | main.py:55-58 | When every href is kept, the loop records one handle per href, at the same position. |
| Followings.RemoveDuplicates | main.py:60-62 | The `seen`-set comprehension produces `Dedup`: an element is kept when no earlier element equals it. |
| Followings.DedupElements | main.py:60-62 | De-duplication keeps exactly the elements of its input. |
| Followings.DedupNoDuplicates | main.py:60-62 | The de-duplicated list has no element twice. |
| Followings.DedupOfUnique | main.py:60-62 | A list without repetitions is returned unchanged. |
| Followings.DedupIdempotent | main.py:60-62 | De-duplicating twice gives the same list as de-duplicating once. |
| Followings.DedupKeepsFirstOccurrenceOrder | main.py:60-62 | If `x` first appears before `y` in the input, `x` comes before `y` in the output. |
| Followings.IndexOf | main.py:60-62 | The position returned holds the element, and no earlier position does. |
| Followings.Followings | main.py:47-67 | Definition of the result: `Dedup(Collected(username, ProfileLinks(hrefs)))`, or the fetch error line. Its properties are `Followings.FollowingsAreKeptLinks`, `Followings.FollowingsWellFormed` and `Followings.FollowingsKeepFirstSeenOrder`. |
| Followings.GetFollowings | main.py:40-67 | `get_followings` returns the de-duplicated handles of the kept profile links. A request exception gives "Error fetching followings: " + text. |
| Followings.FollowingsAreKeptLinks | main.py:52-62 | A handle is in the list exactly when some anchor href matches the pattern, is kept, and maps to that handle. |
| Followings.ProfileLinkHandle | main.py:52-58 | A kept profile link yields a handle of the form `@` plus word characters, possibly ending in the one newline the pattern admits. That handle is never `"@" + username` and never `@home`. |
| Followings.FollowingsWellFormed | main.py:52-62 | The list has no repetitions, and every entry is a well-formed handle other than the user's own and `@home`. |
| Followings.HandleNotCollected | main.py:52-58 | A profile link that no href equals contributes no collected handle. |
| Followings.CollectedKeepsFirstSeenOrder | main.py:52-58 | Before de-duplication: if kept link `h` comes before the first occurrence of kept link `h2`, the first `@h` comes before the first `@h2`. |
| Followings.FollowingsKeepFirstSeenOrder | main.py:52-64 | The returned list keeps first-seen order from start to finish. If kept link `h` comes before the first occurrence of kept link `h2`, both handles are in the result and `@h` comes before `@h2`. |
| Followings.IndexOfAtMost | main.py:60-62 | Proof helper: a position holding an element is no earlier than its first occurrence. |
| Followings.HandleInjective | main.py:58 | Distinct profile links give distinct handles. |
| Followings.RepeatedLinkRecordedOnce | main.py:52-62 | A page listing links `a, b, a` (two distinct kept profile links) yields `[@a, @b]`. The repeat is dropped and first-seen order is kept. |
| Followings.AliceFollowsBobAndCarol | main.py:52-62 | For user `alice`, the hrefs `/bob, /carol, /bob` give `["@bob", "@carol"]`. |
| CsvExport.Timestamp | main.py:71 | `%m%d%Y-%H%M%S` has the form of 8 digits, a dash and 6 digits. Month, day, year, hour, minute and second read back from their positions. |
| CsvExport.FileNameRoundTrip | main.py:72 | The timestamp and the username can be recovered from `media/<timestamp>-<username>.csv`. |
| CsvExport.FileNameInjective | main.py:72 | Two exports share a path exactly when they have the same timestamp and the same username. |
| CsvExport.FileName | main.py:72 | Definition of `f"media/{timestamp}-{username}.csv"`. Its properties are `CsvExport.FileNameRoundTrip` and `CsvExport.FileNameInjective`. |
| CsvExport.CsvRows | main.py:77-79 | The file has one more row than there are handles. Row 0 is `["Following Usernames"]`, and row i+1 is `[followings[i]]`. |
| CsvExport.ReadBackRoundTrip | main.py:75-79 | Reading the rows back gives the saved list, in order. |
| CsvExport.ReadBackOnlyExports | main.py:75-79 | Rows that read back as a list are exactly that list's export. |
| CsvExport.SaveOutcome | main.py:69-82 | Definition of the result of `save_to_csv`: the record of the created file, or the save error line. `CsvExport.SaveToCsv` is proved equal to it. Its rows are characterised by `CsvExport.ReadBackRoundTrip` and `CsvExport.ReadBackOnlyExports`. |
| CsvExport.SaveToCsv | main.py:69-82 | A successful write creates the file at `FileName` with the rows `CsvRows`. A failed one returns "Error saving to CSV: " + text. |
| Exporter.TwitterOption | main.py:84-117 | The calls made are always a prefix of validate, fetch, save, and something is always printed. When all three calls are made, a file is created exactly when the write succeeds; otherwise none is created. |
| Exporter.Retrieve | main.py:101-117 | From the fetch on, the run ends after the fetch with no file, or makes all three calls. In the latter case, a file exists exactly when the write succeeds. |
| Exporter.Save | main.py:111-117 | At the save, all three calls have been made, and a file exists exactly when the write succeeded. |
| Exporter.EachStepAtMostOnce | main.py:84-117 | No call is made twice in one run. |
| Exporter.BlankUsernameNeverValidated | main.py:86-89 | No call is made exactly when the typed line is all whitespace. The run then prints only "Username cannot be empty." and creates no file. |
| Exporter.ValidationGatesRetrieval | main.py:91-96 | The following page is fetched exactly when validation succeeded. A failed validation ends the run after one call, printing its message last. |
| Exporter.SavingNeedsFollowings | main.py:101-112 | After a successful validation, a save is attempted exactly when the fetch returned a non-empty list. |
| Exporter.FetchErrorEndsRun | main.py:103-105 | A failed fetch prints its error last and creates no file. |
| Exporter.EmptyListEndsRun | main.py:107-109 | An empty list prints "Couldn't fetch any followings…" last and creates no file. |
| Exporter.WriteErrorEndsRun | main.py:112-117 | A failed write makes all three calls, prints "Error saving to CSV: " + text last and creates no file. |
| Exporter.SavedOnlyWhenWritten | main.py:112-117 | A file is created exactly when the save was reached and the write succeeded. |
| Exporter.SavedFileIsTheExport | main.py:111-115 | A created file has these properties: its path is built from the timestamp and the stripped username; it reads back as the non-empty fetched list; the last printed line is "Successfully saved followings to " + path. |
| Exporter.ValidFetchIsExported | main.py:101-115 | A validated user with a non-empty list and a successful write gets exactly one file. Its path is `FileName(timestamp, username)` and its rows are `CsvRows(list)`. |
| Exporter.AnswersFor | main.py:92-112 | The answers the real steps give. The clock reaches the save as a well-formed `MMDDYYYY-HHMMSS` timestamp. |
| Exporter.RunIn | main.py:84-117 | The script's run in a given world. A created file's path reads back as the clock's timestamp and the stripped username, so it has the form `media/<8 digits>-<6 digits>-<username>.csv`. |
| Exporter.RepeatedFollowingExportedOnce | main.py:84-117 | Across the whole run, a validated user whose page lists `a, b, a` gets a file holding the header row, `@a` and `@b`. The file's path is built from the clock's timestamp. |

## Left out

- HTTP requests (main.py:15-21, 42-48) are not made. Their outcomes are inputs: a status and body, a list of anchor hrefs, or a request exception with its text. The User-Agent header and the 10-second timeout therefore play no part.
- HTML parsing by BeautifulSoup (main.py:49-52) is not modelled. The page is represented by the `href` values of its anchors, in document order. Anchors without an `href` are never selected by `find_all(href=...)`, so the model has none either.
- `\w` and `.lower()` are taken on ASCII letters only. Python's Unicode word characters and case mappings are not modelled.
- Exceptions other than `requests.RequestException` raised inside `validate_username` and `get_followings` (for example, from the parser) are not modelled. The script would let them propagate.
- The wall clock (`datetime.now()`) is not read. The clock reading is part of the world a run meets (`Exporter.World`), and `CsvExport.Timestamp` renders it.
- CsvExport.Timestamp: requires a year between 1000 and 9999, because `%Y` padding of smaller years differs between platforms.
- Exporter.RunIn: requires the same year bound, because it renders the world's clock with `CsvExport.Timestamp`. `Exporter.AnswersFor` and `Exporter.RepeatedFollowingExportedOnce` have the same requirement.
- File I/O (main.py:74-82) is not performed. Opening and writing the file is reduced to a written/failed outcome. CSV quoting and line endings of `csv.writer` are not modelled; the model stops at the rows handed to `writerow`. A partially written file left behind by a failed write is not modelled.
- The creation of the `media` directory at import time (main.py:9-11) is not modelled.
- The menu, the main loop, the pause between actions and the wording of menu output (main.py:119 onward) are not modelled. The console is reduced to the typed line and the list of printed lines.
- Exporter.RunIn evaluates every step's answer up front. This is harmless because the answers are values and `TwitterOption` consults only those the script would ask for (`Exporter.EachStepAtMostOnce`, `Exporter.ValidationGatesRetrieval`, `Exporter.SavingNeedsFollowings`).
