# Contacts API and quotes site: repositories and ranking, modelled in Dafny

This project models the computed core of two small web back-ends.

- **Contact repository** of the FastAPI contacts service. It covers:
  - owner-scoped list, get, update and remove;
  - create;
  - the four-field, case-insensitive substring search;
  - the upcoming-birthday list.

  The SQLAlchemy session is replaced by an in-memory `contacts` table: the class `Contacts.ContactTable`, which holds a sequence of rows in insertion order and the next value of the id sequence. The same seven functions appear twice in the repository, in `src/repository/contacts.py` and in the copy `Rest-API/src/repository/contacts.py`. They are modelled once. Each row below cites the first file; the copy's lines are:

  | operation | copy's lines |
  |---|---|
  | get_contacts | 11-12 |
  | get_contact | 16-17 |
  | create_contact | 20-25 |
  | update_contact | 28-38 |
  | remove_contact | 41-46 |
  | searcher | 49-62 |
  | birthday_list | 65-74 |

- **User repository**: create, first-match lookup by email or by username, and the three single-field updates (confirmation, avatar, refresh token). It works over the in-memory `users` table `Users.UserTable`.
- **Quotes site index** (Django): `get_top10tags`, which sorts tags by (quote count, name) descending and keeps ten, and the quote list of `main`, which is ordered by descending id and narrowed to the tag named by `tag_name.capitalize()` when one is given. Both are pure functions over sequences of tags and quotes.

Supporting modules:

| module | contents |
|---|---|
| `Results` | `Option`, `Result` and the UNIQUE-violation error. |
| `Seqs` | `.filter()` as `Filter`, `.first()` as `FirstIndex`, subsequence and duplicate-freedom. |
| `Strings` | ASCII `str.lower`, `str.capitalize`, substring `in` and Python's string `<`. |
| `Civil` | Proleptic Gregorian `datetime` at one-second resolution: `replace(year=…)`, which fails on 29 February into a common year, and instants for subtraction. |

The contact and user tables carry their database constraints as class invariants:
- the primary key;
- the UNIQUE email and phone of contacts;
- the UNIQUE email of users.

A write that would break a UNIQUE column returns `Failure(UniqueViolation)` and writes nothing, where the database would refuse the commit.

The quotes side has no table class. The UNIQUE tag name is a precondition of `Quotes.ListQuotes`, the only contract that relies on it. `Quotes.Top10Tags` promises no duplicates only for a duplicate-free tag sequence. Quote ids are not assumed unique.

The contact table keeps the invariant `Valid()` on every method:
- ids are unique and below the next id;
- emails and phones are unique;
- birthdays are valid dates.

## Model

| member | source | states |
|---|---|---|
| `Contacts.ContactTable.GetContacts` | src/repository/contacts.py:19-20 | A contact is returned iff it is in the table and its `user_id` is the caller's; the result keeps table order (a subsequence of the table). |
| `Contacts.ContactTable.GetContact` | src/repository/contacts.py:35-36 | A returned contact is in the table and has both the id and the owner. `None` iff no row matches both, so a contact of another user is never returned. |
| `Contacts.ContactTable.Create` | src/repository/contacts.py:48-52 | Failure iff some row already holds the email or phone; then nothing changes. On success, appends exactly one row carrying the body's six fields, `created_at = now`, the caller as owner and an id no existing row has. |
| `Contacts.ContactTable.Update` | src/repository/contacts.py:69-78 | No owned match: returns `None` and the table is unchanged. Owned match: fails iff another row holds the email or phone, and then nothing changes. Otherwise returns `Some` of the updated row, overwrites the six fields, keeps id, owner and `created_at`, and leaves every other row unchanged. |
| `Contacts.ContactTable.Remove` | src/repository/contacts.py:94-98 | Returns what `get_contact` returned before. `None` leaves the table unchanged. A found row is cut out of the table, with the order of the rest kept. Afterwards no owned match is left, so a second remove returns `None`. |
| `Contacts.DeleteKeepsInvariant` | src/repository/contacts.py:96 | Deleting one row keeps the primary-key, UNIQUE and birthday constraints, and leaves no row with the deleted id. |
| `Contacts.ContactTable.Search` | src/repository/contacts.py:111-123 | The loop returns exactly the contacts whose lower-cased name, surname or email, or raw phone, contains the lower-cased query. The result is in table order and each contact appears at most once. |
| `Contacts.ContactTable.BirthdayList` | src/repository/contacts.py:138-146 | Fails iff some birthday cannot be moved into the current year (29 February into a common year). Otherwise it returns exactly the contacts whose moved birthday minus `now` lies strictly between -1 day and 7 days, in table order. |
| `Contacts.BirthdayWindowInWholeDays` | tests/test_unit_repository_contacts.py:118-132 | A birthday k whole days after a moment of the current year, listed less than a day after that moment, is listed iff 0 <= k <= 7. So days 1 to 7 are in and 8 to 10 are out. |
| `Contacts.MissesWithoutFirstLetter` | tests/test_unit_repository_contacts.py:134-155 | A contact none of whose searched fields contains the query's first letter (in either case where the field is lower-cased) does not match. |
| `Contacts.LowerLacks` | src/repository/contacts.py:114-118 | A lower-cased field contains no string whose first letter the field lacks in both cases. |
| `Contacts.UniqueIdsDistinct` | Rest-API/src/database/models.py:9 | Rows with unique primary keys are pairwise distinct. |
| `Users.UserTable.GetUserByEmail` | src/repository/users.py:51 | Returns the first row with that email. `None` iff no row has it. |
| `Users.UserTable.GetUserByUsername` | src/repository/users.py:62 | Returns the first row with that username. `None` iff no row has it. |
| `Users.UserTable.Create` | src/repository/users.py:19-23 | Failure iff the email is taken; then nothing changes. Otherwise appends one user with the body's username, email and password, unconfirmed, with no avatar and no token, under an id no existing row has. |
| `Users.UserTable.ConfirmEmail` | src/repository/users.py:36-38 | Sets `confirmed` on the user with that email and changes nothing else. The lookup afterwards finds that user confirmed. On a confirmed user it changes nothing, so a second call is idempotent. |
| `Users.UserTable.UpdateAvatar` | src/repository/users.py:74-77 | Sets only that user's avatar to the URL, returns the updated user, and leaves every other row unchanged. |
| `Users.UserTable.UpdateToken` | src/repository/users.py:89-90 | Sets or clears only the refresh token of that user's row and leaves every other row unchanged. |
| `Users.ConfirmAfterCreate` | tests/test_unit_repository_users.py:37-41 | On a fresh table, create then confirm: the lookup by email finds a confirmed user with the body's username and email. |
| `Quotes.Top10Tags` | Django/hw10/app_quotes/views.py:14-17 | Returns min(number of tags, 10) tags, all from the tag table, without duplicates when the table has none. They are in descending (count, name) order and form a true top ten: no tag left out has a key above a returned tag's. |
| `Quotes.Rank` | Django/hw10/app_quotes/views.py:16 | `sorted(..., key=…, reverse=True)` returns a permutation of its input in descending key order. |
| `Quotes.RankedPrefixIsTop` | Django/hw10/app_quotes/views.py:16 | The first n of a descending ranking are drawn from the input, stay sorted, have no duplicates when the input has none, and outrank every tag left out. |
| `Quotes.PrefixOutranksRest` | Django/hw10/app_quotes/views.py:16 | In a descending ranking, every tag of a prefix ranks at least as high as any tag outside it. |
| `Quotes.InsertSorted` | Django/hw10/app_quotes/views.py:16 | Inserting into a descending ranking keeps it descending. |
| `Quotes.InsertPermutes` | Django/hw10/app_quotes/views.py:16 | Inserting adds exactly that tag to the ranking's elements. |
| `Quotes.KeyBelowIrreflexive` | Django/hw10/app_quotes/views.py:16 | No (count, name) key is below itself under tuple `<`. |
| `Quotes.KeyBelowTransitive` | Django/hw10/app_quotes/views.py:16 | Tuple `<` on (count, name) keys is transitive. |
| `Quotes.AtLeastTransitive` | Django/hw10/app_quotes/views.py:16 | "Not below" is transitive, so the descending order is a total preorder. |
| `Quotes.WisdomBeforeLife` | Django/hw10/app_quotes/views.py:16 | With equal quote counts, "Wisdom" ranks before "Life" whichever order the table holds them in (name-descending tie-break). |
| `Quotes.AsWrittenFailsWhereRankingSucceeds` | Django/hw10/app_quotes/views.py:16 | For any non-empty tag table, the code as written fails on `tag.quotes`, while the intended ranking returns a tag of the table. |
| `Quotes.ByIdDesc` | Django/hw10/app_quotes/views.py:42 | `order_by('-id')` returns a permutation of the quotes in descending id order. |
| `Quotes.InsertByIdSorted` | Django/hw10/app_quotes/views.py:42 | Inserting by id into a descending list keeps it descending. |
| `Quotes.InsertByIdPermutes` | Django/hw10/app_quotes/views.py:42 | Inserting by id adds exactly that quote. |
| `Quotes.FilterKeepsIdOrder` | Django/hw10/app_quotes/views.py:50 | Narrowing a descending-id list keeps it in descending id order. |
| `Quotes.NarrowToNamedTag` | Django/hw10/app_quotes/views.py:49-50 | With unique tag names, narrowing to the tag found by name keeps exactly the quotes carrying any tag of that name. |
| `Quotes.ListQuotes` | Django/hw10/app_quotes/views.py:42-52 | The result is in descending id order, and every quote in it is a stored quote. An absent or empty `tag_name` gives all quotes. A capitalised name with no tag gives the empty list. A named tag gives exactly the quotes carrying it, each as often as it is stored (the same multiset as filtering the stored quotes). In every case the result is a subsequence of the quotes ordered by descending id. |
| `Strings.Lower` | src/repository/contacts.py:114 | `str.lower` keeps the length, and no result character is an upper-case letter. |
| `Strings.LowerIdempotent` | src/repository/contacts.py:114 | Lower-casing twice is lower-casing once. |
| `Strings.Capitalize` | Django/hw10/app_quotes/views.py:49 | `str.capitalize` keeps the length. |
| `Strings.CapitalizeIgnoresCase` | Django/hw10/app_quotes/views.py:49 | Two names that agree once lower-cased capitalise to the same string, so the tag filter ignores the case the name was typed in. |
| `Strings.ContainsIffOccurs` | src/repository/contacts.py:114 | The recursive substring test `sub in s` holds iff `sub` occurs at some position of `s`. |
| `Strings.AbsentFirstChar` | src/repository/contacts.py:120 | A string lacking the first character of `sub` does not contain `sub`. |
| `Strings.StrBelowIrreflexive` | Django/hw10/app_quotes/views.py:16 | Python's string `<` is irreflexive. |
| `Strings.StrBelowTransitive` | Django/hw10/app_quotes/views.py:16 | Python's string `<` is transitive. |
| `Strings.StrBelowTotal` | Django/hw10/app_quotes/views.py:16 | Of two different strings, one is below the other. |
| `Seqs.Filter` | src/repository/contacts.py:19 | `.filter(...).all()`: an element is kept iff it is in the input and satisfies the condition; the result is a subsequence of the input. |
| `Seqs.FilterDistinct` | src/repository/contacts.py:114-121 | Filtering a duplicate-free sequence gives a duplicate-free sequence. |
| `Seqs.FilterAppend` | src/repository/contacts.py:113-121 | Scanning one more row extends the filtered result by that row or by nothing. |
| `Seqs.FilterPermutation` | Django/hw10/app_quotes/views.py:50 | Filtering two rearrangements of the same quotes keeps the same quotes, each as often. |
| `Seqs.PermutationDistinct` | Django/hw10/app_quotes/views.py:16 | A rearrangement of a duplicate-free sequence is duplicate-free. |
| `Seqs.FirstIndex` | src/repository/contacts.py:35 | `.first()`: the position found satisfies the condition and no earlier one does. `None` iff no position does. |
| `Civil.DaysInMonth` | src/repository/contacts.py:143 | A month has 28 to 31 days, and 29 exactly for February of a leap year. |
| `Civil.ReplaceYear` | src/repository/contacts.py:143 | `replace(year=y)` fails iff the date is 29 February and y is a common year. Otherwise it gives a valid date in year y with the same month, day and time. |
| `Civil.DaysBeforeNextYear` | src/repository/contacts.py:143 | The day count before year y+1 is the count before y plus 366 in a leap year and 365 otherwise. |
| `Civil.OrdinalNextDay` | tests/test_unit_repository_contacts.py:119-128 | The next calendar day is one ordinal day, 86400 seconds, later, which is what `timedelta(days=1)` adds. |

## Left out

- Routing, rate limiting, the 404 mapping and the avatar upload service are not part of this model. So are application start-up, seed scripts, the Sphinx configuration, Django's `insert_into_db` scraping import, pagination, templates and forms.
- `db.commit()` and `db.refresh()` are not modelled. Each operation is one atomic step on the table. The `async` functions are sequential calls.
- The ORM returns live objects that alias table rows. The model returns row values, so a later change through the returned object is not captured.
- Pydantic validation of request bodies (lengths, `EmailStr`) is not modelled. The bodies are plain records.
- `Rest-API/src/schemas.py` declares no `description` on `ContactModel`, yet update reads `body.description`. Here the body carries an optional description. `src/schemas.py`, used by the first copy, is not part of this model.
- `Contacts.ContactTable.Search` and `Contacts.ContactTable.BirthdayList` scan the whole table, not only the caller's contacts, exactly as the code does. An invariant that every contact query is owner-scoped therefore does not hold of them.
- `Contacts.ContactTable.BirthdayList` takes `now` as a parameter at one-second resolution. The code reads the clock twice, once for the year and once for the difference; the model uses one reading for both, so the New Year instant between the two reads is not captured. Microseconds are not modelled.
- `Contacts.ContactTable.Create` takes the creation time as a parameter in place of the database's `func.now()` default.
- `Strings.Lower` and `Strings.Capitalize` handle ASCII letters only; Unicode case mapping is not modelled.
- `Users.UserTable.ConfirmEmail` and `Users.UserTable.UpdateAvatar` require a user with that email to exist. The code dereferences the lookup's result, so a missing user makes it raise rather than return.
- `Users.UserTable.UpdateToken` requires the user's row to be in the table, because the code receives a loaded user object rather than an id.
- `Quotes.ListQuotes` requires unique tag names, as the UNIQUE column guarantees. The `MultipleObjectsReturned` path of `Tag.objects.get` is therefore not modelled.
- `Quotes.ListQuotes`: the tag filter in `main` runs on a lazy queryset. The model filters an already ordered sequence, which gives the same rows in the same order.
- Quotes are reduced to their id and tag ids, and tags to their id and name. Authors and quote text are not modelled.

## Findings

| source | as written | input that shows it | evidently intended | confidence | as-written member | corrected member |
|---|---|---|---|---|---|---|
| Django/hw10/app_quotes/views.py:16 | The sort key reads `tag.quotes`, but `Quote.tags` (Django/hw10/app_quotes/models.py:24) declares no `related_name`, so Tag's reverse accessor is `quote_set` and `tag.quotes` raises `AttributeError`. | Any non-empty tag table, e.g. one tag "Life". | Count the quotes that reference each tag (`tag.quote_set.count()`), then sort by (count, name) descending and keep ten. | high; not executed | `Quotes.Top10TagsAsWritten`, with `Quotes.AsWrittenFailsWhereRankingSucceeds` | `Quotes.Top10Tags` |
