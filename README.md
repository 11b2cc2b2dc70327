# Product catalog with a JSON document and an SQLite mirror

This project models the core of `app.py`, a small Flask shop backend. The
backend keeps its products in two stores at once:

- the list under `"productos"` in the JSON document `data.json`, which is what
  the handlers read and search;
- the SQLite table `products`, which mirrors four columns of each record
  (`nombre`, `precio`, `imagen`, `habilitado`). Create inserts a row and update
  rewrites all four columns of the URL id's row. Toggle writes only the
  `habilitado` column, delete removes the row, and the comment handlers issue
  no SQL at all.

The project also models the register and login branches over the `users`
table.

The model is organised in these modules:

- `Products` (products.dfy) is the document record. It is a dict whose keys
  may all be absent. It has:
  - the shallow merge of `dict.update`;
  - the toggle of the enabled flag;
  - appending a comment;
  - the first-match lookup `next(...)`;
  - the fresh id `max(ids, default=0) + 1`;
  - `list.remove`.
- `ProductTable` (product_table.dfy) is the table. Its rows are keyed by id.
  It keeps the AUTOINCREMENT high-water mark. It has `INSERT OR IGNORE` and the
  start-up import as a fold over the document. Ids are bound as 64-bit
  integers: an id outside that range makes the statement raise
  (OverflowError), and so does an AUTOINCREMENT past the largest id
  (SQLITE_FULL).
- `Mirror` (mirror.dfy) defines the relation the handlers try to keep: the
  row under each id is the row of the first record with that id, and there
  are no other rows. It proves which handlers keep this relation and under
  which conditions. It gives concrete inputs that break it:
  - a PUT body carrying another `id`;
  - a DELETE on a duplicated id;
  - an imported record without an id: its row sits under an AUTOINCREMENT id
    that no record carries, or that a later record carries and is then
    ignored;
  - a create whose fresh id does not fit in 64 bits, which writes the document
    and then fails the INSERT.
- `CatalogService` (catalog.dfy) is a `Catalog` class holding both stores. It
  has one method per handler:
  - each method returns the HTTP status;
  - each states the new document and the new table;
  - each proves that consistency is preserved where it is.

  A handler whose SQL statement raises after the document was written answers
  500 and leaves the table as it was. The `init_db` import is a loop proved
  against the fold; a statement that raises stops the start-up before the
  commit.
- `Auth` (auth.dfy) has Python's `str.strip` and the ordered registration
  checks. It has the register branch as a function `Registering` on the
  `users` table, with its UNIQUE constraints. An `Accounts` class holds that
  table. Its `Register` method is proved against `Registering`, and its `Login`
  method is also there.

Things the code calls but does not define are parameters of the methods:

- `float(precio)` is `toFloat`, which returns None when parsing fails.
- `secure_filename` is `secure`.
- `generate_password_hash` is `hash`.
- `check_password_hash` is `verify`.

Whether `data.json` exists is a boolean parameter of the import.

## Model

| member | source | states |
|---|---|---|
| JsonValues.BodyOrEmpty | app.py:392 | `request.get_json() or {}` keeps a truthy comment body unchanged and replaces a missing or falsy one by `{}` |
| Products.Merge | app.py:307 | after `p.update(q)`, every key present in `q` has `q`'s value, and every other key keeps `p`'s value or stays absent |
| Products.MergeEmptyBody | app.py:300-307 | merging the empty body `{}` leaves the record unchanged |
| Products.MergeIdempotent | app.py:307 | sending the same PUT body twice has the same effect as sending it once |
| Products.Toggled | app.py:348-350 | the effective flag (missing counts as enabled) is negated and stored explicitly; every other key is unchanged |
| Products.ToggleTwice | app.py:348-350 | toggling twice restores the effective flag and every other key; a record that had an explicit flag is restored exactly |
| Products.WithComment | app.py:401-404 | the comment list (empty when missing) grows by the comment at its end; every other key is unchanged |
| Products.FindIndex | app.py:277 | the index of the first record whose id equals the given id; None exactly when no record has that id |
| Products.FindIndexIsFirstMatch | app.py:277 | any matching index with no earlier match is the one the lookup returns |
| Products.MaxId | app.py:245 | the maximum of the ids, where a missing id counts as 0: it bounds every id, is attained, and is 0 for an empty list |
| Products.NewId | app.py:245 | the new id is 1 in an empty catalog, exceeds every existing id, is one more than some record's id, and no record carries it |
| Products.RemoveFirst | app.py:280 | `list.remove` shortens the list by one and introduces nothing new |
| Products.RemoveFirstMultiset | app.py:280 | what `list.remove(x)` leaves is the original multiset less one copy of `x` |
| Products.RemoveFirstAt | app.py:280 | removing a value whose first occurrence is at index `k` removes exactly index `k` and keeps the order of the rest |
| Products.RemoveFoundRecord | app.py:277-280 | removing the record the lookup found removes exactly its index, even though `list.remove` compares by value |
| ProductTable.RowOf | app.py:95-99 | present name, price and image are copied and missing ones become "", 0 and ""; the column is 1 unless the flag is explicitly false, and is always 0 or 1 |
| ProductTable.RowOfIgnoresComments | app.py:315-323 | the mirrored columns do not depend on the comment list |
| ProductTable.InsertOrIgnore | app.py:92-101 | `INSERT OR IGNORE` raises exactly when the id does not fit in 64 bits, or when there is no id and the mark is already the largest id. Otherwise it keeps every existing row. With an id, that id is added and a new id gets the record's row. Without an id, the row goes to the mark plus one. The mark becomes the mark plus one without an id, a new id above the mark with one, and is otherwise unchanged. The 64-bit high-water invariant is kept |
| ProductTable.ImportAll | app.py:91-101 | the import keeps the high-water invariant, and cannot raise when every record carries an id that fits in 64 bits |
| ProductTable.ImportFailsOnward | app.py:91-101 | once a statement of the import has raised, the import as a whole has failed |
| Mirror.FindUnique | app.py:277 | with unique ids, the record carrying an id is the one the lookup finds |
| Mirror.FindIndexAppend | app.py:253 | appending a record keeps every earlier first match; the appended record is found only for an id nothing earlier carries |
| Mirror.MirrorsAppend | app.py:91-101 | appending a record that has a 64-bit id, and inserting-or-ignoring its row, succeeds and keeps the mirror |
| Mirror.ImportMirrors | app.py:84-101 | importing into an empty table succeeds and mirrors the document when every record has a 64-bit id; a later duplicate id is ignored, so its row is the first record's |
| Mirror.ImportAutoIdUnmatched | app.py:91-101 | on an empty table whose AUTOINCREMENT mark is below the largest id, a single record without an id gets a row under an id no record carries, so the mirror is broken |
| Mirror.ImportAutoIdCanShadow | app.py:91-101 | on an empty table with mark `h`, a record without an id takes id `h + 1`, so a later record with explicit id `h + 1` is ignored and the table no longer mirrors the document |
| Mirror.CreateKeepsConsistent | app.py:245-264 | when the fresh id fits in 64 bits it has no row, and appending the new record with its row keeps unique ids and the mirror |
| Mirror.CreateOverflowBreaksMirror | app.py:245-264 | when the fresh id does not fit in 64 bits, the written document holds a record the table has no row for |
| Mirror.MirrorsReplace | app.py:304-323 | replacing the found record by one with the same id, and writing its row under that id, keeps the mirror |
| Mirror.UpdateKeepsConsistent | app.py:304-323 | an update whose body has no `id` key, or repeats the URL id, keeps unique ids and the mirror |
| Mirror.UpdateWithOtherIdBreaksMirror | app.py:307-322 | a body whose `id` differs from the URL id renames the record while the SQL UPDATE keys on the URL id, which breaks the mirror |
| Mirror.ToggleKeepsConsistent | app.py:345-361 | flipping the flag and its column keeps unique ids and the mirror |
| Mirror.CommentKeepsConsistent | app.py:396-404 | adding a comment changes no mirrored column, so the unchanged table still mirrors the document |
| Mirror.DeleteKeepsConsistent | app.py:277-288 | with unique ids, deleting the found record and its row keeps the mirror, and the id is then in neither store |
| Mirror.DeleteDuplicateBreaksMirror | app.py:277-288 | with a duplicated id, the second record stays in the document while its row is deleted, so the mirror breaks |
| CatalogService.NewRecord | app.py:246-252 | the created record has the new id, is enabled, has no comments, and its row holds exactly the form's values with the column set to 1 |
| CatalogService.ImagePath | app.py:237-238 | the image path is the upload folder, a `/`, and the secured file name |
| CatalogService.InsertEach | app.py:91-101 | the loop of inserts computes exactly the fold `ImportAll`: the rows to commit, or None when a statement raises |
| CatalogService.Catalog.ImportDocument | app.py:84-103 | the document is unchanged. Only when the table is empty and the file exists is every record inserted-or-ignored in order and committed. The start-up fails, with the table unchanged, exactly when the fold raises. A document whose records all carry 64-bit ids is imported and then mirrored. Otherwise nothing changes |
| CatalogService.Catalog.Create | app.py:228-268 | a missing field gives 400 exactly. An empty secured file name, whose image save fails, or a bad price gives 500 with nothing written. Otherwise the new record is appended. Its row is inserted with 201. The request ends with 500, the document staying written, when the id does not fit in 64 bits (the mirror is then broken) or already has a row. A consistent catalog whose fresh id fits always gets 201 and stays consistent |
| CatalogService.Catalog.Delete | app.py:273-294 | an absent id gives 404 with nothing changed. Otherwise the first matching record's index is removed and the others keep their order. Then the id's row is deleted with 200, or the answer is 500 with the table unchanged when the id does not fit in 64 bits. A consistent catalog never gets 500, and consistency is kept |
| CatalogService.Catalog.Update | app.py:299-336 | an absent id gives 404 with nothing changed. Otherwise the found record becomes its merge with the body. Then the URL id's row, if there is one, gets the merged columns with 200, or the answer is 500 with the table unchanged when the id does not fit in 64 bits. When the body brings no other id, a consistent catalog never gets 500 and stays consistent |
| CatalogService.Catalog.Toggle | app.py:341-373 | an absent id gives 404 with nothing changed. Otherwise the found record is toggled. Then the URL id's row gets the new flag with 200, or the answer is 500 with the table unchanged when the id does not fit in 64 bits. A consistent catalog never gets 500, and consistency is kept |
| CatalogService.Catalog.ListComments | app.py:378-387 | the result is 404 exactly when no record has the id. Otherwise it is 200 with the first match's comment list, or an empty list when it has none |
| CatalogService.Catalog.AddComment | app.py:391-415 | an absent id gives 404 with nothing changed. Otherwise the body (or `{}`) is appended to the found record's comments with 201, and the table is untouched |
| Auth.Strip | app.py:157-160 | the stripped field is empty exactly when every character is Python whitespace |
| Auth.StripIsTrimmedSlice | app.py:157-160 | the stripped field is a contiguous piece of the input with no whitespace at either end, and everything dropped is whitespace |
| Auth.StripIdempotent | app.py:157-160 | stripping a stripped field changes nothing |
| Auth.Stripped | app.py:157-160 | each field of the form becomes empty exactly when it was all whitespace, and stripping it again changes nothing |
| Auth.Validate | app.py:162-173 | on the stripped fields: a missing-field rejection exactly when the username, email or password is empty, acceptance exactly when all three are non-empty, the passwords agree and have at least 4 characters, and never an already-registered rejection |
| Auth.ValidateChecksInOrder | app.py:162-173 | a blank username, email or password is reported first, then a password mismatch, then a password shorter than 4. A form passes exactly when none applies |
| Auth.InsertUntaken | app.py:59-62 | adding an account whose username and email are free keeps both UNIQUE constraints |
| Auth.Registering | app.py:157-187 | a failing check rejects with its reason and stores nothing. A taken username or email is rejected as already registered and stores nothing. Otherwise the account is stored under the next AUTOINCREMENT id |
| Auth.RegisteringKeepsConstraints | app.py:59-62 | registration keeps the UNIQUE constraints and the AUTOINCREMENT bound, and a new id belongs to no existing account |
| Auth.RegisterSameNameTwice | app.py:177-187 | on a fresh table, two valid forms with the same stripped username: the first is stored as id 1, and the second is refused with the table unchanged |
| Auth.Accounts.Register | app.py:156-190 | the register branch changes the table exactly as `Registering` says, and keeps the constraints |
| Auth.Accounts.Insert | app.py:177-184 | `INSERT INTO users` stores the account under the next AUTOINCREMENT id and keeps the constraints |
| Auth.Accounts.Login | app.py:135-153 | a session is returned exactly when an account has the stripped username and its hash accepts the stripped password; the session carries that account's id and name |

The mirror is not an invariant of the program. It holds after each
handler only under the conditions the `Mirror` lemmas state. The three lemmas
ending in `BreaksMirror`, `CanShadow` and `Unmatched` give concrete states in
which a handler or the import leaves the two stores disagreeing.

## Left out

- Flask routing, `jsonify`, templates, `flash`, redirects, the session cookie, logout, the landing page and the `login_required` guard are left out because they are framework plumbing. `Login` returns the session contents instead of storing them.
- GET /productos is left out because it returns the document list unchanged.
- JSON parsing and writing, the open/seek/truncate/dump sequence, the SQLite connection and the SQL text are left out. Each store is a value held in a field.
- `created_at` timestamps are left out because they come from the clock.
- Saving the uploaded image is left out because it is file I/O, except that an empty secured file name fails the save with 500 before anything is written. Other disk failures are not modelled. `secure_filename` is an uninterpreted parameter.
- Password hashing and checking are uninterpreted parameters because they are library calls.
- CatalogService.Catalog.Create: `float(precio)` is the parameter `toFloat`, because IEEE float parsing is not modelled. Prices are `real`.
- CatalogService.ImagePath: `secure` is taken to return a name without `/`, as `secure_filename` does, so the rule of `os.path.join` that an absolute second part replaces the folder is not modelled.
- Records whose known keys hold JSON `null` or values of another type are not modelled, because the record type gives each known key one type. The source treats these in several ways. Some make a statement raise: `float()` of a non-numeric price, or NOT NULL on `nombre` in the UPDATE of PUT. Others are accepted silently:
  - the import's INSERT OR IGNORE skips a row with a null `nombre`;
  - a null `imagen` is stored as NULL;
  - a null `habilitado` counts as disabled;
  - a numeric string price is parsed;
  - a float id such as `3.0` matches the URL id 3;
  - a null `id` in the import gets an AUTOINCREMENT id, as a missing one does.
- PUT bodies that are not JSON objects are not modelled, because the body is a record.
- URL ids that are not a run of digits, such as `-1`, are left out because Flask's `<int:id>` route answers them with 404 before a handler runs. The handlers take a `nat`.
- CatalogService.Catalog.Update: its body arrives as a record, with an absent or falsy body already replaced by `{}` (app.py:300).
- Auth.Registering: the AUTOINCREMENT counter of `users` is not bounded by 64 bits, because registrations only raise it by one from 0.
- A comment list that is present but not a list is not modelled, for the same reason.
- Products.Toggled: the flag is a boolean. The source negates the truthiness of whatever value is stored.
- The gap between the document write and the SQL statement in each handler is left out because crashes and concurrency are not modelled. So are concurrent requests that overwrite each other's document writes.
- A POST /login whose `action` is neither `login` nor `register` is left out because it only renders the form.
