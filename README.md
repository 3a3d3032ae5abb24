# CRM-streamlit core, modelled in Dafny

CRM-streamlit is a small stock and customer system for a shop that sells
appliances. Two front-ends share one MySQL database:

- a Flask site (`run.py`);
- a Streamlit dashboard (`streamlit_app.py`).

Both front-ends do the same things:

- add products to the catalog;
- receive stock, which adds a `stock_in` row and raises the product's on-hand quantity;
- record customers;
- sell, which checks stock and then writes a `sale_order`, a `sale_order_item` and a decrement;
- log maintenance visits.

There is also supporting code:

- administrator accounts, with three default accounts created at start-up (`auth.py`);
- settings read from the environment, with a fallback reader for `.env` (`config.py`);
- a bootstrap script that splits `schema.sql` into statements and runs them (`init_db.py`).

The model is organised as follows:

- `common.dfy`: `Option` and `Result`.
- `text.dfy`: the Python string operations the core relies on:
  - `str.strip` and `strip(chars)`;
  - `int()` of a string and `str()` of an integer;
  - zero padding;
  - ASCII lower-casing.
- `schema.dfy`: the database.
  - The seven tables form one value, `Tables`. Each table is a sequence whose row ids are auto-increment, so row `k` has id `k + 1`.
  - Each SQL statement the core issues is a function from the tables to the new tables and a result. Its foreign-key and unique-key errors follow the schema.
  - `Consistent` is the inventory invariant: on-hand = received − sold, and it is never negative.
- `db.dfy`: `Database`, a class with one field per table and one method per statement. Every method states its new state through the matching `Schema` function. This is the part of the program that changes state.
- `ledger.dfy`: the statement sequences both front-ends share:
  - receive stock;
  - place a sale;
  - add a product, and the way its error is classified;
  - the order-number format.
- `web.dfy`: the Flask handlers.
  - How form fields are read: `type=int` gives `None` on bad input, and `or None` maps falsy values to `None`.
  - Each handler is a function stating its outcome, plus a method that issues the statements in order and is proved to reach that outcome.
  - The inventory search, with a SQL `LIKE` matcher.
  - Lemmas over any sequence of requests.
- `dashboard.dfy`: the Streamlit pages.
  - The select-box option maps. A Python dict comprehension keeps the last row for a repeated label.
  - The default-price loop.
  - The `if submitted:` branches.
- `auth.py` → `auth.dfy`:
  - the `AdminUser` value;
  - lookups by id and by username;
  - the password check;
  - `ensure_default_admins`, a method with a loop.
- `config.py` → `config.dfy`:
  - `_load_env_fallback`, a method over a mutable `Environ` class;
  - the `Config` defaults.
- `init_db.py` → `init_db.dfy`:
  - `_split_sql`, a character-by-character loop proved against a specification by cut points;
  - the statement loop of `main`, which skips blank statements and `delimiter` commands and stops at the first statement the server rejects.

Clocks, password hashing and file contents are parameters:

- a clock reading is a `Clock` value;
- `hash`/`verify` are function-typed parameters;
- the `.env` file is an `Option<string>`, where `None` means the file is missing.

Conventions used below:

- "WellFormed" means the tables have dense ids, unique models and usernames, and valid references.
- "Consistent" is the inventory invariant above.

## Model

| member | source | states |
|---|---|---|
| Text.Trim | config.py:11 | the result of `strip` is no longer than the input and neither starts nor ends with a stripped character |
| Text.TrimIsInfix | config.py:11 | the stripped text is a contiguous slice of the input |
| Text.TrimEmptyIff | config.py:12 | stripping gives the empty string exactly when every character is one that is stripped |
| Text.StripEmptyIff | run.py:75-76 | `s.strip()` is empty, so `not s` holds, exactly when `s` is all whitespace |
| Text.TrimIdempotent | config.py:16 | stripping twice is the same as stripping once |
| Text.StripIdempotent | run.py:148 | `strip()` of a stripped string changes nothing |
| Text.TrimFixed | config.py:11 | a string whose ends are not stripped characters is unchanged by `strip` |
| Text.IndexOf | config.py:14 | the index of the first occurrence of the separator: it holds that character and no earlier position does |
| Text.NatToString | auth.py:25-26 | the decimal form of a natural number is a non-empty string of digits |
| Text.NatToStringValue | auth.py:25-26 | reading the digits of `str(n)` gives back `n` |
| Text.NoSpaceInIntString | config.py:30 | `str(n)` has no surrounding whitespace, so `int()` sees it unchanged |
| Text.ParseIntRoundTrip | config.py:30 | `int(str(n)) == n` for every integer, negative ones included |
| Text.DigitsAreGroups | config.py:30 | a plain run of digits is a literal that `int()` accepts |
| Text.NatToStringLength | run.py:195 | a number below `10^k` has at most `k` digits |
| Text.LeadingZerosValue | run.py:195 | leading zeros do not change the value of a digit string |
| Text.ZerosValue | run.py:195 | a string of zeros has value 0 |
| Text.PadDecodes | run.py:195 | zero-padding `n` to a fixed width gives exactly that many digits, and they read back as `n` |
| Schema.ProductById | run.py:190 | a product is found exactly when the id is in range; it is that row, with that id |
| Schema.InsertProduct | run.py:112-115 | the insert fails with a duplicate-key error on `uk_model`, and leaves the tables alone, exactly when the model exists; otherwise it appends the row with the next id and quantity 0; well-formed tables stay well-formed |
| Schema.InsertCustomer | run.py:155-158 | appends the customer under the next id and keeps the tables well-formed |
| Schema.InsertStockIn | run.py:81-84 | fails, leaving the tables alone, exactly when the product does not exist (foreign key); otherwise appends the receipt under the next id |
| Schema.AdjustQuantity | run.py:85-88 | only the product with that id changes, and its quantity moves by `delta`; a missing id changes nothing |
| Schema.InsertSaleOrder | run.py:196-199 | fails exactly when the customer does not exist; otherwise appends the order header under the next id |
| Schema.InsertSaleItem | run.py:200-203 | fails exactly when the order or the product does not exist; otherwise appends the line under the next id |
| Schema.InsertMaintenance | run.py:232-235 | fails exactly when the customer, or a product that was given, does not exist; a missing product is stored as NULL |
| Schema.FindAdmin | auth.py:39-46 | the lookup finds nothing exactly when no row has that username; a found row is in the table and has that username |
| Schema.AdminById | auth.py:29-36 | the lookup by id finds nothing exactly when no row has that id; a found row has that id |
| Schema.InsertAdmin | auth.py:74-77 | fails exactly when the username is taken; otherwise appends the account with the next id |
| Schema.ReceivedAppend | run.py:81-84 | a new receipt adds its quantity to the total received for its own product only |
| Schema.SoldAppend | run.py:200-203 | a new sale line adds its quantity to the total sold for its own product only |
| Schema.ReceivedNone | run.py:81-84 | a product with no receipts has received nothing |
| Schema.SoldNone | run.py:200-203 | a product with no sale lines has sold nothing |
| Db.Database.constructor | db.py:7-16 | a connection to a database whose tables are all empty |
| Db.Database.SelectProduct | db.py:29-32 | `execute_one` on the product table returns the row with that id, if any |
| Db.Database.SelectAdminByUsername | auth.py:67-70 | the account row with that username, if any |
| Db.Database.InsertProduct | db.py:39-42 | the tables and the returned `lastrowid` or error are those of the product insert |
| Db.Database.InsertCustomer | db.py:39-42 | the tables and `lastrowid` are those of the customer insert |
| Db.Database.InsertStockIn | db.py:39-42 | the tables and result are those of the stock-in insert |
| Db.Database.AdjustQuantity | db.py:44-46 | the tables are those after the quantity update |
| Db.Database.InsertSaleOrder | db.py:39-42 | the tables and result are those of the order insert |
| Db.Database.InsertSaleItem | db.py:39-42 | the tables and result are those of the order-line insert |
| Db.Database.InsertMaintenance | db.py:39-42 | the tables and result are those of the maintenance insert |
| Db.Database.InsertAdmin | db.py:39-42 | the tables and result are those of the account insert |
| Ledger.ReceiveStock | run.py:81-88 | receiving fails with a foreign-key error, writing nothing, exactly when the product is missing; otherwise one receipt is appended and that product's quantity rises by the amount while every other product is unchanged |
| Ledger.Receive | run.py:81-88 | the insert then the update, leaving the database as `ReceiveStock` says and reporting its reply |
| Ledger.ReceiveStockKeepsConsistent | run.py:81-88 | receiving a non-negative amount keeps on-hand = received − sold for every product |
| Ledger.ReceiveStockMidwayInconsistent | run.py:81-84 | between the two statements, with nothing locked, the invariant is broken for the product being received |
| Ledger.PlaceSale | run.py:190-204 | the sale is refused, writing nothing, exactly when the product is missing or has fewer units than asked; an unknown customer makes the first insert fail, writing nothing; otherwise the header, one line and the decrement are written, and the quantity stays non-negative |
| Ledger.Sell | run.py:190-204 | the stock check, two inserts and the decrement, leaving the database as `PlaceSale` says |
| Ledger.PlaceSaleKeepsConsistent | run.py:190-204 | a sale keeps on-hand = received − sold, and never drives a quantity below zero |
| Ledger.ClassifyInsertError | run.py:117-121 | a failed product insert is reported either as a duplicate model or as a generic failure |
| Ledger.DuplicateModelIsRecognised | run.py:118-119 | the duplicate-key error on `uk_model` is reported as a duplicate model |
| Ledger.OtherErrorIsGeneric | run.py:120-121 | an error whose message mentions neither `Duplicate` nor `uk_model` is reported as a generic failure |
| Ledger.AddProduct | run.py:111-121 | a product is created exactly when no product has that model; otherwise nothing is written and the reply is a duplicate model |
| Ledger.AddProductKeepsConsistent | run.py:111-121 | adding a product, with quantity 0 and no receipts, keeps the inventory invariant |
| Ledger.OtherTablesKeepConsistent | run.py:155-158 | writes that touch neither products, receipts nor sale lines keep the inventory invariant |
| Ledger.OrderNoAsWrittenCollides | run.py:195 | the order number as written gives the same number to two clock readings in different milliseconds of the same second |
| Ledger.TimestampDecodes | run.py:195 | the `%Y%m%d%H%M%S` part is 14 digits, and its fields read back as year, month, day, hour, minute and second |
| Ledger.OrderNoInjective | run.py:195 | the corrected order number is 19 characters, and two readings get the same number exactly when they fall in the same millisecond |
| Web.FormIntReadsId | run.py:72 | a field holding `str(id)` is read back as `id` by `type=int` |
| Web.StockInOutcome | run.py:71-90 | the request is rejected, writing nothing, exactly when the product is missing or zero or the quantity is missing or below 1; otherwise the receipt is stored with the cost defaulting to 0 and an empty note stored as NULL, and the product's quantity rises by the amount |
| Web.StockInAdd | run.py:71-90 | the handler's statements leave the database as `StockInOutcome` says |
| Web.ProductOutcome | run.py:103-122 | a blank model is rejected; an existing model is reported as a duplicate, writing nothing; otherwise the stripped model is stored with an empty category stored as NULL, prices defaulting to 0 and quantity 0 |
| Web.ProductAdd | run.py:103-122 | the handler leaves the database as `ProductOutcome` says |
| Web.LikeAnything | run.py:131-132 | `%` matches every model |
| Web.LikePrefix | run.py:131-132 | `q%` matches exactly the models that start with `q`, for a `q` without wildcards |
| Web.ContainsStep | run.py:131-132 | a text contains `q` exactly when it starts with `q` or its tail contains `q` |
| Web.LikeContains | run.py:131-132 | `%q%` matches exactly the models that contain `q`, for a `q` without wildcards |
| Web.Matching | run.py:130-133 | the rows returned are exactly the products whose model matches the pattern |
| Web.Inventory | run.py:126-134 | an empty search returns nothing; a search returns only catalog products |
| Web.InventoryFindsSubstring | run.py:127-133 | a non-empty search without wildcards finds exactly the products whose model contains it |
| Web.CustomerOutcome | run.py:147-160 | a blank name is rejected, writing nothing; otherwise the stripped name is stored with empty phone, address and note stored as NULL, under the next id |
| Web.CustomerAdd | run.py:147-160 | the handler leaves the database as `CustomerOutcome` says |
| Web.SaleOutcome | run.py:178-206 | the request is rejected, writing nothing, exactly when the customer, product or quantity is missing or zero or the quantity is below 1; a completed sale stores the header, with total = quantity × unit price and the corrected order number `Ledger.OrderNo` (see Findings), and the line; it lowers the quantity, which stays non-negative |
| Web.SaleAdd | run.py:178-206 | the handler leaves the database as `SaleOutcome` says, under the corrected order number |
| Web.OptionalProduct | run.py:226 | the product is left NULL exactly when the field is missing, not a number, or zero |
| Web.MaintenanceOutcome | run.py:224-237 | the request is rejected exactly when the customer is missing or zero; otherwise one visit is stored, with empty content and result stored as NULL |
| Web.MaintenanceAdd | run.py:224-237 | the handler leaves the database as `MaintenanceOutcome` says |
| Web.StockInConserves | run.py:71-90 | a stock-in request changes each quantity by exactly what was received |
| Web.ReceiveStockConserves | run.py:81-88 | receiving changes each quantity by exactly what was received |
| Web.SaleConserves | run.py:178-206 | a sale request changes each quantity by exactly minus what was sold |
| Web.PlaceSaleConserves | run.py:190-204 | placing a sale changes each quantity by exactly minus what was sold |
| Web.ProductConserves | run.py:103-122 | adding a product leaves the quantity of every existing product as it was |
| Web.HandleConserves | run.py:69-237 | any single request keeps the tables well-formed, and moves each quantity by received − sold |
| Web.RunConserves | run.py:69-237 | over any sequence of requests, each product's quantity moves by exactly what was received minus what was sold |
| Web.HandleKeepsConsistent | run.py:69-237 | any single request keeps the inventory invariant |
| Web.RunKeepsConsistent | run.py:69-237 | any sequence of requests, handled one after another, keeps the inventory invariant |
| Dashboard.LastWinsKeepsLast | streamlit_app.py:127-132 | in a dict built from rows, every label is present, and each maps to the value of the last row with that label |
| Dashboard.LastWinsPicksLast | streamlit_app.py:127-132 | a row whose label no later row repeats is the one its label selects |
| Dashboard.ProductOptions | streamlit_app.py:127-132 | every product's label is offered, and every label selects the id of a product with that label |
| Dashboard.ProductOptionSelects | streamlit_app.py:140 | choosing a label that no later product repeats selects that product's id |
| Dashboard.ProductLabelsCollide | streamlit_app.py:128 | model `A - B` without a category and model `B` in category `A` have the same label, and only the second can be chosen |
| Dashboard.ProductLabelDeterminesModel | streamlit_app.py:128 | with the same category and quantity, the same label means the same model |
| Dashboard.MaintenanceProductOptions | streamlit_app.py:356-359 | every product's category-and-model label is offered and selects a product with that label |
| Dashboard.CustomerOptions | streamlit_app.py:233 | every customer's name-and-phone label is offered and selects a customer with that label |
| Dashboard.NameOptions | streamlit_app.py:355 | every customer name is offered and selects a customer with that name |
| Dashboard.SameNameHidesCustomer | streamlit_app.py:355 | of two customers with the same name, the earlier one can never be chosen |
| Dashboard.SaleCandidates | streamlit_app.py:212-215 | the products offered for sale are exactly those with stock above zero |
| Dashboard.PriceOf | streamlit_app.py:240-245 | the default price is that of the first product with the selected id, and 0 when there is none |
| Dashboard.DefaultPrice | streamlit_app.py:240-245 | the loop with `break` computes that default price |
| Dashboard.PriceOfUnique | streamlit_app.py:242-245 | when ids are unique, the default is the selected product's price, or 0 when it has no price |
| Dashboard.DefaultPriceIsProductPrice | streamlit_app.py:240-245 | over the in-stock products shown, the default is the stored price of the product chosen |
| Dashboard.ProductSubmitted | streamlit_app.py:78-93 | a blank model is rejected; otherwise the stripped model is inserted with an empty category stored as NULL |
| Dashboard.ProductSubmit | streamlit_app.py:78-93 | the branch leaves the database as `ProductSubmitted` says |
| Dashboard.StockInSubmitted | streamlit_app.py:139-149 | a created receipt is for the product the label selects, and raises its quantity by the amount |
| Dashboard.StockInSubmit | streamlit_app.py:139-149 | the branch leaves the database as `StockInSubmitted` says |
| Dashboard.StockInSubmittedCreates | streamlit_app.py:139-149 | on well-formed tables, a label from the option list always leads to a created receipt |
| Dashboard.CustomerSubmitted | streamlit_app.py:181-189 | a blank name is rejected; otherwise the stripped name is stored, and empty phone, address and note are stored as NULL |
| Dashboard.CustomerSubmit | streamlit_app.py:181-189 | the branch leaves the database as `CustomerSubmitted` says |
| Dashboard.SaleSubmitted | streamlit_app.py:251-283 | a sale writes the header for the chosen customer, under the corrected order number `Ledger.OrderNo` (see Findings), and a line for the chosen product; anything else writes nothing |
| Dashboard.SaleSubmit | streamlit_app.py:251-283 | the branch leaves the database as `SaleSubmitted` says, under the corrected order number |
| Dashboard.CustomerOptionsExist | streamlit_app.py:233 | every customer label selects an existing customer |
| Dashboard.SaleOptionsExist | streamlit_app.py:227-232 | every product label on the sale form selects an existing product |
| Dashboard.SaleSubmittedSells | streamlit_app.py:256-267 | with labels from the lists, the result is either out of stock or a sale under the order number, and it is a sale exactly when the stock covers the quantity |
| Dashboard.MaintenanceSubmitted | streamlit_app.py:370-380 | the visit is stored for the chosen customer, with no product for `—`, and empty content and result stored as NULL |
| Dashboard.MaintenanceSubmit | streamlit_app.py:370-380 | the branch leaves the database as `MaintenanceSubmitted` says |
| Dashboard.MaintenanceSubmittedCreates | streamlit_app.py:370-380 | on well-formed tables, a choice from the lists always stores the visit under the next id |
| Dashboard.NameOptionsExist | streamlit_app.py:355 | every name label selects an existing customer |
| Dashboard.MaintenanceOptionsExist | streamlit_app.py:356-359 | every product label on the maintenance form selects an existing product |
| Dashboard.SubmissionsKeepConsistent | streamlit_app.py:139-149 | stock-in and sale submissions with a quantity of at least 1 keep the inventory invariant |
| Auth.NewAdminUser | auth.py:7-10 | id and username are kept; the display name falls back to the username exactly when it is missing or empty |
| Auth.Get | auth.py:28-36 | `get` returns nothing exactly when no account has the id; otherwise the user with that id |
| Auth.GetByUsername | auth.py:38-46 | `get_by_username` returns nothing exactly when no account has the username; otherwise the user with that username |
| Auth.LoadUserRoundTrip | auth.py:25-26 | the session id from `get_id`, read back by `load_user`, gives the same user |
| Auth.CheckPassword | auth.py:48-56 | login succeeds exactly when the username exists and the password verifies against its stored hash; the user is the one `get_by_username` returns |
| Auth.CheckPasswordRow | auth.py:48-56 | the right password for any stored account logs in as that account |
| Auth.FindAdminExtend | auth.py:39-46 | appending accounts does not change the result of a lookup that already succeeds |
| Auth.EnsureOne | auth.py:66-77 | an existing username leaves the tables alone; a missing one gets one new account with the hashed password; afterwards the username exists |
| Auth.EnsureOneWellFormed | auth.py:66-77 | ensuring one account keeps the tables well-formed, with usernames unique |
| Auth.EnsureDefaultAdmins | auth.py:58-77 | the loop leaves the database as the defaults applied one after another |
| Auth.EnsureAccountsAppends | auth.py:66-77 | ensuring accounts only appends to the account table and keeps the tables well-formed |
| Auth.EnsureAccountsCovers | auth.py:66-77 | afterwards, every listed username has an account |
| Auth.EnsureAccountsCoversFirst | auth.py:66-77 | the first listed username has an account afterwards |
| Auth.EnsureAccountsPresent | auth.py:71-72 | when every listed username exists already, nothing is written |
| Auth.EnsureDefaultsProperties | auth.py:58-77 | after `ensure_default_admins`, `boss1`, `boss2` and `lingtong` exist, earlier accounts are untouched, and running it again changes nothing |
| Auth.NewRows | auth.py:73-77 | the rows for fresh accounts carry consecutive ids, usernames, hashed passwords and display names |
| Auth.EnsureAccountsFresh | auth.py:66-77 | with distinct usernames that are all missing, one row per account is appended, in order |
| Auth.DefaultsOnEmpty | auth.py:61-77 | on an empty table, the defaults create accounts 1 to 3 with their fixed passwords hashed |
| Auth.DefaultAccountsLogIn | auth.py:48-65 | on a fresh database, each default account logs in with its default password |
| Auth.DefaultRowsLogIn | auth.py:48-65 | the three default rows log in with their default passwords, with display names `boss1`, `boss2` and `Lingtong` |
| Config.FirstBreak | config.py:10 | the position of the first line break, with no break before it |
| Config.SplitLines | config.py:10 | `splitlines()` gives lines without breaks, and nothing for empty text |
| Config.SplitLinesRoundTrip | config.py:10 | lines written with `\n` after each split back into the same lines |
| Config.SplitFirstLine | config.py:10 | a line followed by `\n` splits off as the first line |
| Config.ParseLine | config.py:11-16 | a line is skipped exactly when it is blank after stripping, a comment, or has no `=`; a key never holds `=` |
| Config.CutAt | config.py:14-16 | cutting at the first `=` gives a key without `=` |
| Config.ParseLineAt | config.py:14 | a stripped, non-comment line is cut at its first `=` |
| Config.ParseLineKeyValue | config.py:14-16 | the line `key=v` reads as that key and `v` with its quotes removed |
| Config.ParseLineRoundTrip | config.py:11-17 | a `KEY=value` line reads back as that key and value, even when the value holds `=` |
| Config.ParseLineQuoted | config.py:16 | a value written in double quotes reads back without them |
| Config.QuotedUnquotes | config.py:16 | stripping leaves a double-quoted value as it is, and removing the quotes gives the value back |
| Config.UnquoteFixed | config.py:16 | a value that unquoting leaves alone has no surrounding single or double quotes |
| Config.Environ.constructor | config.py:17 | the environment starts with the variables already set |
| Config.Environ.SetDefault | config.py:17 | `setdefault` stores the value only for an unset key; it fails exactly where Python raises, for an empty key or a NUL character |
| Config.Entries | config.py:10-11 | one entry per line of the file, each the parse of its own line |
| Config.LoadEnvFallback | config.py:7-17 | the loop over the lines leaves the environment, and reports success, as the lines applied in order |
| Config.ApplyKeepsExisting | config.py:17 | reading the file never overwrites a variable that was already set; when it completes, an unset variable gets the value of the first line that assigns it |
| Config.MissingFileChangesNothing | config.py:8-9 | a missing file leaves the environment as it was |
| Config.LoadConfig | config.py:26-33 | each setting is the variable's value or its default; loading fails exactly when `DB_PORT` is not an integer |
| Config.DefaultSettings | config.py:26-33 | with nothing set, the settings are the defaults: port 3306, database `mycrm`, user `root` |
| Config.PortRoundTrip | config.py:30 | a port written as an integer is read back as that integer |
| InitDb.StepEffect | init_db.py:19-38 | one character: an escaped character is taken as it is; a backslash starts an escape; each quote kind toggles only outside the other two |
| InitDb.PieceStart | init_db.py:39-44 | the current statement starts at or before the current position |
| InitDb.OpenPieceIsSlice | init_db.py:39-46 | the buffer is the text since the last cut |
| InitDb.QuotesExclusive | init_db.py:27-38 | at most one kind of quote is open at any point |
| InitDb.EscapedCharIsText | init_db.py:19-26 | a character after a backslash never cuts, and it ends the escape |
| InitDb.QuotedSemicolonKept | init_db.py:27-39 | inside a literal opened by `'`, `"` or a backtick outside quotes, only that quote mode is on, up to the next quote of the same kind or backslash, and no `;` there cuts |
| InitDb.CleanShape | init_db.py:40-48 | the statements kept are non-empty and already stripped |
| InitDb.SplitSql | init_db.py:11-49 | the loop returns the stripped, non-empty pieces between the `;` that lie outside quotes and escapes |
| InitDb.CleanAppend | init_db.py:40-43 | a cut adds the stripped piece when it is not blank |
| InitDb.ClosedPerCut | init_db.py:39-44 | one piece is closed per cut |
| InitDb.SplitShape | init_db.py:11-49 | there are at most one more statements than cuts, each non-empty and stripped |
| InitDb.ClosedRejoins | init_db.py:39-44 | the closed pieces, each followed by `;`, rejoin into the script up to the open piece |
| InitDb.SplitRejoins | init_db.py:11-49 | the pieces joined with `;` give back the whole script: the split loses no character |
| InitDb.NoCutsBelow | init_db.py:39 | with no cut, nothing is closed and the buffer is the whole prefix |
| InitDb.NoCutOneStatement | init_db.py:46-48 | a script without a cut gives its stripped self, or nothing when it is blank |
| InitDb.ExecuteStatements | init_db.py:84-93 | the loop sends, in order, the stripped statements that are neither blank nor `delimiter` commands, and stops at the first one the server rejects: what it sent is a prefix of that list, only its last statement can be rejected, and `ok` holds (everything was sent) exactly when no statement of the list is rejected |
| InitDb.ExecuteSchema | init_db.py:84-106 | `main` sends the kept statements of the split script up to and including the first rejected one, which raises to the handler; all of them are sent exactly when none is rejected |
| InitDb.AttemptStep | init_db.py:87-93 | while nothing was rejected, one more statement is skipped when blank or a `delimiter` command, and otherwise sent, with `ok` false when the server rejects it |
| InitDb.AttemptStops | init_db.py:93-106 | once a statement is rejected, the statements after it change nothing: the exception leaves the loop |
| InitDb.AttemptOutcome | init_db.py:84-106 | what the loop sends is the `Executed` list up to and including the first rejected statement, and all of it exactly when none is rejected |
| InitDb.AttemptSent | init_db.py:86-93 | with no rejection all of `Executed` is sent, none rejected; otherwise a non-empty prefix of it is sent, the last statement rejected and none before it |
| InitDb.ExecutedIsKept | init_db.py:87-92 | on split output the re-strip and the blank check change nothing: exactly the non-`delimiter` statements run, in order |
| InitDb.KeptMembers | init_db.py:91-92 | a statement is run exactly when it was split out and is not a `delimiter` command |
| InitDb.DelimiterCommandIff | init_db.py:91-92 | a statement is skipped as a `delimiter` command exactly when its first ten characters spell `delimiter ` letter by letter in lower or upper case |
| InitDb.SchemaRunsSplitStatements | init_db.py:86-93 | the statements the loop offers to the server are exactly the statements of the script that are not `delimiter` commands; with no rejection each of them is sent |

## Left out

- MySQL collation: the schema's case- and accent-insensitive collation is not modelled. Username lookups, the unique model key and `LIKE` compare characters exactly.
- `LIKE` escapes: the search term's own `%`, `_` and `\` are treated as wildcards. The matching lemmas cover only wildcard-free terms.
- Row order: `ORDER BY` is not modelled. Option maps and listings are built in insertion (id) order. With repeated labels, which row a label selects depends on the order the query returns.
- Floating point: prices and totals are `real`, with no binary rounding.
- Number parsing: `request.form.get(..., type=float)` is a field that is either a real or missing (`Option<real>`). Streamlit's `number_input` bounds (quantity ≥ 1, price ≥ 0) are taken as given where a lemma needs them.
- Concurrency and transactions: each statement commits on its own. Requests are handled one at a time. The model shows the midway state between two statements (`Ledger.ReceiveStockMidwayInconsistent`). It does not model two interleaved requests racing between the stock check and the decrement.
- Integer width: quantities and ids are unbounded integers, while MySQL's integer columns are not. Out-of-range errors are not modelled. These include a form quantity too large for the column, which fails the first insert. They also include an increment at run.py:85-88 that overflows after the receipt at run.py:81-84 has committed.
- Web.RunKeepsConsistent: holds only with unbounded quantities. An increment that overflowed after its receipt committed would leave a receipt without its increment and break on-hand = received − sold.
- Web.RunConserves: holds only with unbounded quantities, for the same reason.
- Web.SaleOutcome: stores and reports the corrected order number `Ledger.OrderNo(now)`, not the number run.py:195 builds from two clock readings and an unpadded microsecond prefix. That number is `Ledger.OrderNoAsWritten`; see Findings.
- Web.SaleAdd: passes the corrected `Ledger.OrderNo(now)` to the sale, not the number run.py:195 builds.
- Dashboard.SaleSubmitted: stores the corrected `Ledger.OrderNo(now)`, not the number streamlit_app.py:263-267 builds.
- Dashboard.SaleSubmit: passes the corrected `Ledger.OrderNo(now)` to the sale, not the number streamlit_app.py:263-267 builds.
- Auto-increment gaps: a failed insert is assumed not to consume an id.
- Database errors are structured (`DbError`). Their messages follow MySQL's wording only as far as the product handler's error classification needs.
- `Auth.CheckPassword`: `werkzeug` hashing and salting are function parameters. Only the assumption that `verify` accepts what `hash` produced is used.
- `ensure_db` at `run.py:241-246` swallows every exception. It is not modelled separately. `Auth.EnsureDefaultAdmins` models the call itself.
- Flask and Streamlit plumbing is left out:
  - routing, redirects, flash messages and templates;
  - the login and logout views;
  - session handling;
  - the page menu;
  - the dashboard counts;
  - the list pages (`stock_in_list`, `product_list`, `customer_list`, `sale_list`, `maintenance_list` and their Streamlit tables), which only display rows.
- `page_inventory` at `streamlit_app.py:320-342` runs the same `LIKE` query as `run.py:124-134`, which `Web.Inventory` models. Its "button or non-empty text" trigger is UI state and is not modelled.
- The `python-dotenv` branch at `config.py:19-24` is left out: that library is not part of this model. Only the fallback reader is modelled.
- `init_db.py` `main` is modelled only as far as the statement loop goes:
  - the connections, `CREATE DATABASE` and the follow-up `ALTER TABLE` are left out;
  - the file read and the printing are left out.
- `sql/schema.sql` is not part of this model. Its constraints are the ones the statements rely on: primary keys, the unique `model` and `username`, and the foreign keys of `stock_in`, `sale_order`, `sale_order_item` and `maintenance`.
- InitDb.IsDelimiterCommand: `str.lower()` is modelled for ASCII letters only.
- InitDb.ExecuteStatements: whether the server rejects a statement is a parameter (`fails`). What it does with a statement it accepts is not modelled, nor the connection itself failing.
- Ledger.AddProduct: the only insert error modelled is a duplicate model, so the generic failure branch at run.py:120-121 and streamlit_app.py:92-93 is never taken. Other failures, such as a model longer than its column, are not modelled.
- Web.ProductOutcome: never reports the generic "添加失败" message of run.py:120-121, for the same reason.
- Dashboard.ProductSubmitted: never shows the generic failure message of streamlit_app.py:92-93, for the same reason.
- `Text.ParseInt`: `int()` is modelled for ASCII digits, surrounding whitespace, a sign and `_` between digits. Other Unicode digits are not accepted.

## Findings

| source | as written | input that shows it | evidently intended | confidence | as-written member | corrected member |
|---|---|---|---|---|---|---|
| run.py:195 (same code at streamlit_app.py:263-267) | the order number ends with the first three characters of `str(microsecond)`. That string is not zero-padded, so short values put a different digit in each place. The clock is also read twice. | two sales in the same second, at 5000 µs and at 500000 µs: both numbers end in `500` and are equal | the three-digit, zero-padded millisecond from one clock reading. That is unique per millisecond. | not executed | Ledger.OrderNoAsWrittenCollides | Ledger.OrderNoInjective |
