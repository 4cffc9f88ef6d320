# User and article service: a Dafny model

This project models a small HTTP service that keeps users and articles in
memory. The service holds two tables: `users_db`, which maps a user id to
`{id, name, email}`, and `articles_db`, which maps an article id to
`{id, user_id, title, content, tags, created_at}`. Its request handlers

- create, list, read, update and delete users;
- create, list and read articles.

Every check a handler makes is modelled, with its status code and message.
The stricter email validator and the display formatter of `utils.py` are
modelled as well.

Modules:

- `OrderedDict` (ordered_dict.dfy) models a Python dict with int keys. It is
  a sequence of entries with distinct keys, kept in insertion order.
  - `Put` (`d[k] = v`) overwrites an existing key in place, keeping its
    position.
  - `Remove` (`del d[k]`) keeps the other entries in their order.
- `App` (app.dfy) holds the records, the store invariant `Consistent`, and
  the filters that `GET /articles` applies. Its `Store` class holds the two
  tables as fields, with one method per handler.
  - A handler takes its already-decoded request fields. An absent field is
    `None`.
  - A handler returns a `Reply`: a status code with the record, or a status
    code with the error message.
- `AppEmail` (app_email.dfy) models `validate_email`, the service's own
  email check.
- `Utils` (utils.dfy) models the stricter `is_valid_email` and
  `format_datetime_for_display`.
- `Tags` (tags.dfy) models the parsing of the comma-separated `tags` field.
- `Calendar` (calendar.dfy) models the dates and timestamps:
  - `datetime.strptime(s, "%Y-%m-%d")` for the `date_after` query;
  - `strftime("%Y-%m-%d %H:%M:%S")` for display.
- `Sequences` (sequences.dfy) defines the subsequence relation. The model
  uses it to say that a filter or a deletion keeps the surviving entries in
  their order.
- `Text` (text.dfy) models the Python string operations the code relies on:
  `str.strip`, `str.split`, `','.join`, and whitespace.

Python's truthiness is modelled explicitly:

- a missing field and an empty string are both "not given" (`Tags.Given`);
- a `user_id` of 0 is "not given" (`App.GivenId`);
- an empty `tag` query means there is no tag filter.

The model keeps these behaviours of the code:

- **New ids can collide.** A new id is the table size plus one. After a
  deletion this can be a key that is still in use, and that record is then
  overwritten in place (`App.NextIdCollides`).
- **A new name sticks even when the update fails.** `update_user` writes the
  new name before it looks at the email. A later 400 or 409 therefore still
  leaves the name changed.
- **`validate_email` is anchored only at the start.** Anything may follow the
  matched part.

## Model

| member | source | states |
|---|---|---|
| AppEmail.ValidateEmail | app.py:12-14 | The scan behind `validate_email`: the first '@' has something before it, and the '@'-free run after it holds a '.' that is neither its first nor its last character. Its meaning is proved in `ValidateEmailMatchesPattern`. |
| AppEmail.ValidateEmailMatchesPattern | app.py:12-14 | The scanning check accepts a string exactly when the pattern matches at its start. The pattern is: non-'@' characters, an '@', then non-'@' characters holding a '.' with a character on both sides. |
| AppEmail.ValidateEmailSound | app.py:14 | Every accepted string has an '@' at some i > 0 and a '.' at some j. The character after j is not '@'. No '@' occurs before i, and none occurs between i and j. |
| AppEmail.ValidateEmailComplete | app.py:14 | Every string the pattern matches is accepted. |
| AppEmail.ValidateEmailFromWitness | app.py:14 | A match at a given '@' index and '.' index makes the check accept. |
| AppEmail.ValidateEmailRejectsNoAt | app.py:29-30 | "invalid-email" is refused. |
| AppEmail.ValidateEmailAcceptsPlain | app.py:29 | "alice@example.com" is accepted. |
| Utils.Body | utils.py:8 | The text `$` must reach. It differs from the string exactly when the string ends with '\n', and then it is the string without that final newline. |
| Utils.IsValidEmail | utils.py:5-8 | The scan behind `is_valid_email`: split the body at its first '@' and its last '.', then check the three runs. Its meaning is proved in `IsValidEmailMatchesPattern`. |
| Utils.IsValidEmailMatchesPattern | utils.py:5-8 | Splitting at the first '@' and the last '.' accepts a string exactly when the anchored pattern `local@domain.letters` matches it. |
| Utils.IsValidEmailLocalPart | utils.py:8 | An accepted address starts with a non-empty run of letters, digits and `._%+-`, ended by its first '@'. |
| Utils.IsValidEmailSingleAt | utils.py:8 | An accepted address contains exactly one '@'. |
| Utils.IsValidEmailDomainPart | utils.py:8 | After the '@' comes a non-empty run of `[A-Za-z0-9.-]`, then a '.', then two or more ASCII letters that end the address, apart from one trailing newline. |
| Utils.IsValidEmailImpliesValidateEmail | utils.py:8 | Every address `is_valid_email` accepts is also accepted by `validate_email`. |
| Utils.ValidateEmailIsWeaker | app.py:14 | "a@b.c" passes `validate_email` but not `is_valid_email`, so the converse fails. |
| Utils.FormatForDisplay | utils.py:10-14 | A datetime gives the 19-character "YYYY-MM-DD HH:MM:SS" form. Each field reads back from its place. A non-datetime gives its own `str` text. |
| Calendar.FormatDateTime | app.py:16-17 | The display form has 19 characters. The separators are '-' at 4 and 7, ' ' at 10, and ':' at 13 and 16. Every other position is a digit. |
| Calendar.FormatDateTimeReadBack | app.py:16-17 | Each digit group of the display form reads back as year, month, day, hour, minute and second. |
| Calendar.DaysInMonth | app.py:137 | Every month has 28 to 31 days. February has 29 exactly in leap years. |
| Calendar.MonthField | app.py:137 | The month is one or two digits in 1..12, followed by '-'. |
| Calendar.DayField | app.py:137 | The day is 1..31 and nothing follows it. Its value is read from the text: one digit, a space and a digit, or two digits. |
| Calendar.ParseDate | app.py:137 | A parsed date is a valid calendar date. Its year is the first four digits, its month is the month field read after the first '-', and its day is the day field read after the second '-'. A parse failure (`None`) stands for the ValueError. |
| Calendar.ParseIsoDate | app.py:137 | Every valid date written as "YYYY-MM-DD" parses back to itself. |
| Calendar.ParseDateUnpadded | app.py:137 | "2024-1-5" is accepted, as strptime accepts unpadded fields. |
| Calendar.ParseDateSpacePadded | app.py:137 | "2024-01- 5" is accepted. |
| Calendar.ParseDateRejectsDayOutOfMonth | app.py:141-142 | "2023-02-29" is refused. |
| Calendar.ParseDateRejectsYearZero | app.py:141-142 | "0000-01-01" is refused. |
| Calendar.ParseDateRejectsMalformed | app.py:141-142 | "not-a-date" is refused. So is a date followed by more digits. |
| Calendar.Midnight | app.py:137 | The datetime strptime returns for a date: that date at 00:00:00.000000, valid whenever the date is. |
| Calendar.AtOrAfter | app.py:139 | The `>=` comparison of two datetimes, field by field from the year down to the microsecond. |
| Calendar.AtOrAfterTotalOrder | app.py:139 | That comparison is reflexive, total, antisymmetric and transitive. |
| Calendar.AtOrAfterMidnight | app.py:139 | Every instant on the day itself is at or after that day's midnight. |
| Text.Pad2 | app.py:17 | Two digits whose value is the number. |
| Text.Pad4 | app.py:17 | Four digits whose value is the number. |
| Text.Strip | app.py:103 | The result is the slice of the input that starts right after its leading whitespace. Only whitespace follows the slice. The result neither starts nor ends with whitespace, and it is empty exactly when the input is all whitespace. |
| Text.Split | app.py:103 | At least one piece. No piece contains the separator. |
| Text.JoinSplit | app.py:103 | Joining the pieces of a split gives back the string. |
| Text.SplitJoin | app.py:103 | Splitting a join of separator-free pieces gives back the pieces. |
| Tags.Given | app.py:26 | Python truthiness of an optional string field: present and non-empty. The same test is made at app.py:97, app.py:103 and app.py:130. |
| Tags.KeepNonBlank | app.py:103 | Keeps at most as many tags as there are pieces. Every kept tag is non-empty, has no surrounding whitespace and no comma. No tag is kept exactly when every piece is whitespace only. |
| Tags.ParseTags | app.py:95-103 | An absent or empty `tags` field gives no tags. Every stored tag is clean. What it returns for each input is stated by `ParseSpelledTags`. |
| Tags.StripSpelled | app.py:103 | Stripping a tag written with any whitespace around it gives back the tag. A piece of whitespace only strips to nothing. |
| Tags.KeepNonBlankSpelled | app.py:103 | Over such pieces, the kept tags are exactly the written non-empty tags, in order. |
| Tags.ParseSpelledTags | app.py:95-103 | Write any tags, each with any whitespace around it, with blank pieces anywhere, and join them with commas. Parsing gives back exactly the non-empty tags, in order and with duplicates. |
| Tags.KeepNonBlankClean | app.py:103 | Pieces that are already clean are all kept, unchanged and in order. |
| Tags.ParseJoinedTags | app.py:103 | Parsing "t1,t2,..." of clean tags gives back the same list, in order and with duplicates. |
| Tags.ParseTagsExample | app.py:103 | "python,flask" becomes ["python", "flask"]. |
| Tags.ParseTagsDropsBlank | app.py:103 | " a ,, " becomes ["a"]. |
| OrderedDict.Get | app.py:47 | Finds a value exactly when the key is present, and the value is the one stored under it. |
| OrderedDict.GetStored | app.py:155 | With distinct keys, the value found for a stored key is that entry's value. |
| OrderedDict.Put | app.py:38 | Assigning overwrites the entry for an existing key in place. Otherwise it appends a new entry. No other entry moves or changes. |
| OrderedDict.PutKeys | app.py:38 | After an assignment, keys are still distinct and the key set gains the key. |
| OrderedDict.PutGet | app.py:38 | After an assignment, the key reads back as the new value. |
| OrderedDict.PutMembers | app.py:38 | An assignment adds the new entry and drops only the key's old entry. |
| OrderedDict.PutSame | app.py:62-63 | Assigning a key the value it already has changes nothing. |
| OrderedDict.PutPut | app.py:62-73 | A second assignment to a key overrides the first. |
| OrderedDict.Remove | app.py:80 | Deleting drops exactly the key's entry. Keys stay distinct, the key set loses the key, and the length drops by one exactly when the key was there. The remaining entries keep their order, and an absent key changes nothing. |
| OrderedDict.RemoveAt | app.py:80 | Deleting the key stored at position p gives the entries before p followed by the entries after p. |
| OrderedDict.RemoveKeys | app.py:83-84 | The entries whose keys are not in the set remain, in their order, and nothing else. |
| OrderedDict.RemoveNoKeys | app.py:83-84 | Deleting no keys changes nothing. |
| OrderedDict.RemoveAfterRemoveKeys | app.py:83-84 | Deleting keys one after another equals deleting the whole set at once. |
| OrderedDict.Values | app.py:43 | The values, in storage order. |
| App.PutUserConsistent | app.py:36-38 | Storing a valid user whose email no other user has keeps the store invariant. |
| App.PutKeepsOthers | app.py:62-71 | Renaming a user does not change which other users hold an email. |
| App.PutArticleConsistent | app.py:105-114 | Storing an article by an existing user, with a title, content, a timestamp and clean tags, keeps the store invariant. |
| App.NextIdCollides | app.py:36-38 | Take a table keyed 1..n and delete a key below n. The next id is then n, which is still taken. Storing under it overwrites that record, and the table does not grow. |
| App.ArticleIdsOf | app.py:82 | The collected ids are exactly the ids of the user's articles. |
| App.GivenId | app.py:97 | Python truthiness of `user_id`: present and not 0. |
| App.Consistent | app.py:8-9 | The store invariant. Keys are distinct in both tables and each record's id is its key. Every user has a name and a valid email, and no two users share an email. Every article has a title, content, a valid timestamp and clean tags, and its author is a stored user. |
| App.ArticlesNotBy | app.py:82-84 | The remaining articles are exactly the stored articles not written by the user, in their order. |
| App.RemoveCollectedIds | app.py:82-84 | Deleting the collected ids one by one leaves exactly the articles of other users, in their order. |
| App.RemoveKeysByOwner | app.py:83-84 | Deleting the ids of exactly one user's articles leaves the other users' articles. |
| App.RemoveUserConsistent | app.py:79-84 | Deleting a user together with its articles keeps the store invariant. No article is left pointing at a missing user. |
| Sequences.SubsequenceRefl | app.py:125 | The unfiltered list is trivially in storage order. |
| Sequences.SubsequenceTrans | app.py:130-140 | Applying the date filter after the tag filter still keeps storage order. |
| App.WithTag | app.py:130-133 | Keeps exactly the articles whose tag list contains the exact tag, in storage order. |
| App.CreatedSince | app.py:135-140 | Keeps exactly the articles created at or after midnight of the date, in storage order. |
| App.Listing | app.py:125-140 | An article is listed exactly when it is stored, has the tag if a tag is given, and was created on or after the date if one is given. The list follows storage order. |
| App.View | app.py:117-118 | The response record has the article's fields. Its `created_at` is the article's timestamp in the 19-character display form. |
| App.Views | app.py:144-149 | One response record per article, in the same order. |
| App.Render | app.py:145-149 | The formatting loop yields the display records of the listed articles. |
| App.Store.constructor | app.py:8-9 | Both tables start empty, and the store invariant holds. |
| App.Store.EmailTaken | app.py:32-34 | True exactly when some stored user has that email. |
| App.Store.EmailTakenByOther | app.py:69-71 | True exactly when a user with a different id has that email. |
| App.Store.CreateUser | app.py:20-39 | Missing name or email gives 400. An invalid email gives 400. An email in use gives 409. Each error leaves both tables unchanged. Otherwise the user `{len+1, name, email}` is assigned into `users_db` and returned with 201, and `articles_db` is unchanged. The store invariant is kept. |
| App.Store.GetUsers | app.py:41-43 | 200 with every stored user, in storage order. |
| App.Store.GetUser | app.py:45-50 | 200 with the stored user exactly when the id is present. Otherwise 404 "User not found". |
| App.Store.UpdateUser | app.py:52-75 | An absent id gives 404 and changes nothing. Otherwise a given name is stored first. An invalid email then gives 400 and an email used by another id gives 409, and in both cases the name change stays. Without an error the updated user is returned with 200. Other users and all articles are unchanged, and the store invariant is kept. |
| App.Store.DeleteUser | app.py:77-86 | An absent id gives 404 and changes nothing. Otherwise the reply is 204, the user's entry is deleted, and exactly the articles of other users remain, in order. The store invariant is kept. |
| App.Store.CreateArticle | app.py:89-120 | A falsy user_id, title or content gives 400. An unknown user gives 404. Neither error changes anything. Otherwise `{len+1, user_id, title, content, parsed tags, now}` is stored and returned with 201, with `created_at` formatted. Users are unchanged and the store invariant is kept. |
| App.Store.GetArticles | app.py:122-151 | Changes nothing. An unparsable `date_after` gives 400 whether or not a tag is given. Otherwise 200 with the display records of `Listing`. |
| App.Store.GetArticle | app.py:153-161 | 200 with the display record of the stored article exactly when the id is present. Otherwise 404 "Article not found". Changes nothing. |

## Left out

- Flask routing, request decoding, `jsonify` and `app.run` (app.py:1-5, app.py:164-165) are framework glue. Each handler takes its decoded fields and returns a status with a payload.
- JSON typing is not modelled. Fields are strings and `user_id` is an integer. A non-string name or email, a `user_id` sent as a string or a boolean, and the errors such values raise are not modelled.
- `datetime.now()` (app.py:112) is a clock read. `App.Store.CreateArticle` takes the creation time as the parameter `now`.
- Timestamps are modelled as datetime fields (year through microsecond), not as seconds since an epoch. Datetime comparison is the lexicographic order of those fields.
- App.Store.DeleteUser: the 204 reply carries no body, because the service's message is not sent with a 204 status.
- Calendar.FormatDateTime: years below 1000 are shown zero-padded to four digits. What `%Y` prints there depends on the platform's C library.
- Calendar.ParseDate: only ASCII digits are read. Python's `\d` in strptime's pattern also matches other Unicode decimal digits.
- `models.py` is not part of this model. Its data-holder classes are covered by the `User` and `Article` datatypes.
- The service's tests are not part of this model. Their cases appear as the concrete lemmas above.
- There is no concurrency. Handlers run one at a time against the single store.
