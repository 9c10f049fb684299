# Time booking: a Dafny model

This project models the core of a small Next.js time-booking application
backed by PostgreSQL. It covers five parts:

- **The four entity routes.** `/api/users`, `/api/departments`,
  `/api/projects` and `/api/booking-accounts` each answer `GET` (list) and
  `POST` (create).
  - A create validates its JSON body with JavaScript truthiness, then
    inserts one row.
  - A database error becomes 409 (unique violation, SQLSTATE 23505), 400
    (foreign-key violation, 23503) or 500, as each route's catch block
    decides.
  - A list returns the rows sorted as its `ORDER BY` says. Projects carry
    the LEFT JOINed department name; booking accounts carry the joined
    project name and customer. Both can be filtered by an optional query
    parameter.
- **The store** (`Store.Database`). It is a class holding the four tables
  as sequences, with:
  - one SERIAL sequence per table;
  - a clock standing in for `CURRENT_TIMESTAMP`;
  - the schema's constraints as its invariant `Valid()`: SERIAL primary
    keys below their sequence's next value, which stays within the INTEGER
    range; UNIQUE department names and user emails; foreign keys.

  Each insert returns the stored row or the failure the statement
  produces. The insert itself checks VARCHAR lengths and the INTEGER
  range of an id parameter. A VARCHAR(n) column refuses a longer value
  ("value too long") unless every character past the n-th is a space. It
  then stores the value cut to n characters, and UNIQUE compares that
  stored value. A sequence that has handed out 2147483647
  is exhausted, and every further insert into its table fails. A
  connectivity fault is a boolean parameter (`outage`).
- **The seeding script** (`seed-database.js`). It deletes the four tables'
  rows, then inserts:
  - five departments;
  - ten projects, which name their department by a literal id 1–5;
  - five booking accounts per project;
  - eight users.

  `Seeder.SeedDatabase` is imperative and keeps the script's loops. Its
  contract gives the exact final state:
  - **First run** on fresh tables: it completes, with 5, 10, 50 and 8 rows.
  - **Second run**: `DELETE` does not reset the sequences, so department 1
    no longer exists. The first project insert then fails its foreign key,
    and the run stops there.
  - **An exhausted sequence**: each loop stops with an internal fault
    where its table's sequence runs out. The rows stored before that stay.
- **The time-slot form** (`TimeBookingForm.tsx`) and **the bookings page**
  (`bookings/page.tsx`).
  - The form rejects an empty input or an end time that is not after the
    start time. Otherwise it emits one slot and clears itself.
  - The page appends each emitted slot to its list.
- **The add-user page** (`add-user/page.tsx`). It covers:
  - the form state and its single-field updates;
  - the dropdown options;
  - the toast and navigation that follow the reply to `POST /api/users`.

  These are connected to the users route by lemmas.

Modules: `Schema` (rows, column limits, JS truthiness), `Http` (responses),
`Ordering` (the two `ORDER BY`s), `Store`, `UsersRoute`, `DepartmentsRoute`,
`ProjectsRoute`, `BookingAccountsRoute`, `Seeder`, `TimeBookingForm`,
`BookingsPage`, `AddUserPage`.

Some behaviour differs from what one might read into the interface
descriptions; the model follows the code.

- The booking-account listing's `customer_name` is the joined project's
  customer. Only the projects table is joined.
- The project and booking-account routes have no 409 case: a
  unique-violation code would fall through to 500. Their schema has no
  UNIQUE column, so it cannot arise.
- A body that is not JSON makes `request.json()` throw inside the `try`,
  so it gets 500, not 400.
- A list filter outside the INTEGER range cannot be bound as the query's
  parameter, so the list answers 500.
- A create answers 500 once its table's sequence is exhausted.
- A create whose over-long VARCHAR value ends in spaces succeeds, and the
  returned row holds the value cut to the column's length.

## Model

| member | source | states |
|---|---|---|
| Store.Find | app/api/projects/route.ts:56 | The LEFT JOIN lookup: a found row is in the table and matches; nothing is found exactly when no row matches |
| Store.SerialKeysDistinct | seed-database.js:115 | SERIAL keys, increasing in insertion order, are pairwise distinct, so they are a primary key |
| Store.OccursOnce | seed-database.js:125 | In a table whose ids are distinct, each row occurs exactly once |
| Schema.VarcharValue | seed-database.js:116 | VARCHAR(n) stores at most n characters, a prefix of the value: a value that fits unchanged, and only a value that fits keeps its length; a longer value is accepted iff only spaces are cut |
| Store.CheckUserInsert | seed-database.js:146-155 | An insert into users is accepted iff every VARCHAR column accepts its value and no user has the email as stored (cut to 100); a unique violation iff every column accepts and the stored email is taken; never a foreign-key violation |
| Store.CheckDepartmentInsert | seed-database.js:113-120 | Accepted iff VARCHAR(100) accepts the name and no department has the name as stored; a unique violation iff it accepts and the stored name is taken |
| Store.CheckProjectInsert | seed-database.js:123-132 | Accepted iff both VARCHAR(200) columns accept their values and the department exists; a foreign-key violation iff they accept but no department has that id; never a unique violation |
| Store.CheckAccountInsert | seed-database.js:135-143 | Accepted iff VARCHAR(100) accepts the name and the project exists; a foreign-key violation iff it accepts but no project has that id; never a unique violation |
| Store.Database.constructor | seed-database.js:111-173 | Freshly created tables are empty, every sequence starts at 1, and the constraints hold |
| Store.Database.InsertUser | app/api/users/route.ts:129-132 | On an outage or an exhausted sequence: an internal fault, nothing changes. Otherwise the sequence advances, and the insert returns the new row (numbered by the sequence, stamped by the clock, VARCHAR values cut to their columns) or the failing constraint. The clock advances exactly on success. Only users changes, and the constraints are kept |
| Store.Database.InsertDepartment | app/api/departments/route.ts:118-121 | As for users, against the departments table and its UNIQUE name |
| Store.Database.InsertProject | app/api/projects/route.ts:145-149 | As for users, against the projects table and its foreign key to departments; a department id outside INTEGER fails to bind, with nothing changed and the sequence not advanced |
| Store.Database.InsertBookingAccount | app/api/booking-accounts/route.ts:141-145 | As for projects, against booking_accounts and its foreign key to projects |
| Store.Database.ClearBookingAccounts | seed-database.js:181 | Empties booking_accounts; the other tables and every sequence are unchanged |
| Store.Database.ClearProjects | seed-database.js:182 | Empties projects, cascading to booking_accounts; the sequences are unchanged |
| Store.Database.ClearDepartments | seed-database.js:183 | Empties departments, cascading to projects and booking_accounts; the sequences are unchanged |
| Store.Database.ClearUsers | seed-database.js:184 | Empties users; everything else is unchanged |
| Ordering.NameLeTotal | app/api/departments/route.ts:41 | Any two names are ordered one way or the other |
| Ordering.NameLeAntisymmetric | app/api/departments/route.ts:41 | Names ordered both ways are equal |
| Ordering.NameLeTransitive | app/api/departments/route.ts:41 | The name order is transitive |
| Ordering.InsertDesc | app/api/users/route.ts:43 | Inserting into a list sorted newest first keeps it sorted and adds exactly that row |
| Ordering.SortDesc | app/api/users/route.ts:43 | `ORDER BY created_at DESC`: the result is a permutation of the rows, newest first |
| Ordering.InsertAsc | app/api/departments/route.ts:41 | Inserting into a name-sorted list keeps it sorted and adds exactly that row |
| Ordering.SortAsc | app/api/departments/route.ts:41 | `ORDER BY name`: the result is a permutation of the rows in ascending name order |
| Ordering.SortedAscSameHead | app/api/departments/route.ts:41 | Two name-sorted permutations of rows with distinct names start with the same row |
| Ordering.SortedAscUnique | app/api/departments/route.ts:41 | With distinct names, there is only one name-sorted arrangement of the rows |
| UsersRoute.List | app/api/users/route.ts:40-51 | 500 with the fetch message on a store fault; otherwise 200 with every user exactly once, newest first |
| UsersRoute.Create | app/api/users/route.ts:115-148 | 400 iff a field is missing or empty; 409 iff the columns accept the values and the email as stored is taken; 201 iff the insert is accepted, returning the row as stored (VARCHAR values cut to their columns); 500 otherwise (also on an exhausted sequence), each with its message |
| UsersRoute.FailureResponse | app/api/users/route.ts:135-147 | 409 with the duplicate message iff SQLSTATE is 23505, otherwise 500 |
| UsersRoute.ConflictIffEmailTaken | app/api/users/route.ts:139-144 | For a complete body the columns accept: 500 when the sequence is exhausted; otherwise 409 iff some user has the email as stored, and 201 iff none has |
| UsersRoute.Post | app/api/users/route.ts:115-148 | The handler's response is `Create` of the old table; users grows by the created row exactly on 201; other tables and sequences are untouched; the users sequence advances by one iff the INSERT reaches the table (a complete body, no outage, room left); the clock advances exactly on 201; the constraints are kept |
| UsersRoute.SecondPostWithSameEmailConflicts | app/api/users/route.ts:139-144 | After a successful create, any complete body the columns accept whose email is stored the same (equal up to trailing spaces cut off) gets 409, or 500 if the sequence is exhausted by then |
| DepartmentsRoute.List | app/api/departments/route.ts:38-49 | 500 on a fault; otherwise 200 with every department exactly once, in ascending name order |
| DepartmentsRoute.ListIsDetermined | app/api/departments/route.ts:41 | With unique names, the listing is the only name-sorted arrangement of the table |
| DepartmentsRoute.Create | app/api/departments/route.ts:104-137 | 400 iff name or description is missing or empty; 409 iff VARCHAR(100) accepts the name and the name as stored is taken; 201 iff it is accepted and free, returning the row with the name as stored; 500 otherwise (also on an exhausted sequence) |
| DepartmentsRoute.FailureResponse | app/api/departments/route.ts:124-136 | 409 with the duplicate-name message iff SQLSTATE is 23505, otherwise 500 |
| DepartmentsRoute.Post | app/api/departments/route.ts:104-137 | The response is `Create` of the old table; departments grows exactly on 201; other tables and sequences are untouched; the departments sequence advances by one iff the INSERT reaches the table; the clock advances exactly on 201; every stored department keeps a non-empty description |
| DepartmentsRoute.SecondIdenticalPostConflicts | app/api/departments/route.ts:128-133 | Posting the same body again after it was created gets 409, or 500 if the sequence is exhausted by then |
| DepartmentsRoute.CreateKeepsTableInvariant | app/api/departments/route.ts:110-123 | A created row keeps department names unique and descriptions non-empty |
| ProjectsRoute.Rows | app/api/projects/route.ts:52-64 | The joined rows are exactly the selected projects, each joined to its department and listed as often as it occurs in the table; all of them when unfiltered |
| ProjectsRoute.List | app/api/projects/route.ts:47-75 | 500 on a fault or a filter outside INTEGER; otherwise 200 with a permutation of the joined rows, newest first |
| ProjectsRoute.ListContents | app/api/projects/route.ts:61-64 | With `department_id` given, exactly that department's projects; without it, every project; each as often as in the table, so exactly once when ids are distinct |
| ProjectsRoute.RowsOnce | app/api/projects/route.ts:52-64 | Over projects with distinct ids, each selected project is listed exactly once |
| ProjectsRoute.JoinedNameIsOwnDepartment | app/api/projects/route.ts:53-56 | The joined name is the project's own department's name, and null iff no department has that id |
| ProjectsRoute.ListedProjectsNameTheirDepartment | app/api/projects/route.ts:53-56 | Over a store that keeps its constraints and a filter that binds, every listed project carries its department's name |
| ProjectsRoute.Create | app/api/projects/route.ts:131-165 | A 400 body is one of the two messages; the missing message iff name, customer or department id is falsy; the invalid-department message iff the columns accept the values, the sequence is not exhausted and no department has that id; 201 iff the insert is accepted, returning the row as stored; 500 otherwise |
| ProjectsRoute.FailureResponse | app/api/projects/route.ts:152-164 | 400 iff SQLSTATE is 23503, otherwise 500 |
| ProjectsRoute.Post | app/api/projects/route.ts:131-165 | The response is `Create` of the old departments; projects grows exactly on 201; other tables and sequences are untouched; the projects sequence advances by one iff the INSERT reaches the table (also needing a department id that binds as INTEGER); the clock advances exactly on 201; the constraints are kept |
| BookingAccountsRoute.Rows | app/api/booking-accounts/route.ts:52-64 | The joined rows are exactly the selected accounts, each joined to its project and listed as often as it occurs in the table; all of them when unfiltered |
| BookingAccountsRoute.List | app/api/booking-accounts/route.ts:47-75 | 500 on a fault or a filter outside INTEGER; otherwise 200 with a permutation of the joined rows, newest first |
| BookingAccountsRoute.ListContents | app/api/booking-accounts/route.ts:61-64 | With `project_id` given, exactly that project's accounts; without it, every account; each as often as in the table, so exactly once when ids are distinct |
| BookingAccountsRoute.RowsOnce | app/api/booking-accounts/route.ts:52-64 | Over accounts with distinct ids, each selected account is listed exactly once |
| BookingAccountsRoute.JoinedFieldsAreOwnProject | app/api/booking-accounts/route.ts:53-56 | The joined project name and customer are the account's own project's, and both null iff no project has that id |
| BookingAccountsRoute.ListedAccountsNameTheirProject | app/api/booking-accounts/route.ts:53-56 | Over a store that keeps its constraints and a filter that binds, every listed account carries its project's name and customer |
| BookingAccountsRoute.Create | app/api/booking-accounts/route.ts:127-161 | A 400 body is one of the two messages; the missing message iff name or project id is falsy; the invalid-project message iff the column accepts the name, the sequence is not exhausted and no project has that id; 201 iff the insert is accepted, returning the row as stored; 500 otherwise |
| BookingAccountsRoute.FailureResponse | app/api/booking-accounts/route.ts:148-160 | 400 iff SQLSTATE is 23503, otherwise 500 |
| BookingAccountsRoute.Post | app/api/booking-accounts/route.ts:127-161 | The response is `Create` of the old projects; booking_accounts grows exactly on 201; other tables and sequences are untouched; the accounts sequence advances by one iff the INSERT reaches the table (also needing a project id that binds as INTEGER); the clock advances exactly on 201; the constraints are kept |
| Seeder.AccountDescription | seed-database.js:230 | The description is the account name followed by " activities for project" |
| Seeder.SeededAccountsLength | seed-database.js:220-239 | The nested loop yields one account per name per project |
| Seeder.SeededAccountsAt | seed-database.js:220-239 | Account number `n·i + a` belongs to project `i` and carries name `a` with its description |
| Seeder.SampleDepartmentsFit | seed-database.js:15-21 | The sample departments have distinct names that fit their column |
| Seeder.SampleProjectsFit | seed-database.js:23-34 | The sample projects fit their columns, name department ids 1 to 5, and the first names department 1 |
| Seeder.SampleAccountNamesFit | seed-database.js:36-42 | The booking-account names fit their column |
| Seeder.SampleUsersFit | seed-database.js:44-109 | The sample users have distinct emails and fit their columns |
| Seeder.SampleDataFitsSchema | seed-database.js:15-109 | The script's arrays satisfy everything the run relies on |
| Seeder.DepartmentRowsHave | seed-database.js:188-199 | The departments the first loop stores are exactly the ids from the sequence's start onward, one per sample |
| Seeder.ProjectRowsHave | seed-database.js:202-218 | Every collected project id names a stored project |
| Seeder.InsertDepartments | seed-database.js:188-199 | The first loop stores the department rows with consecutive ids and collects those ids, as many as the sequence still numbers; it completes iff the sequence has room for all |
| Seeder.InsertSampleDepartment | seed-database.js:196-197 | One department insert succeeds iff the sequence is not exhausted, and then stores the next row, numbered and stamped one past the previous |
| Seeder.InsertSampleProject | seed-database.js:210-216 | One project insert fails iff the sequence is exhausted (an internal fault, nothing changes) or the department does not exist (a foreign-key violation that consumes a sequence value); on success the sample's row is appended |
| Seeder.InsertProjects | seed-database.js:202-218 | The second loop stores a prefix of the project rows and stops at the first exhausted sequence or missing department, reporting which |
| Seeder.InsertSampleAccount | seed-database.js:231-236 | One account insert succeeds iff the sequence is not exhausted, appending the next expected account |
| Seeder.InsertAccountsAt | seed-database.js:222-238 | One pass of the outer loop: the project's accounts follow those of the projects before it, as many as the sequence still numbers |
| Seeder.InsertAccountsOf | seed-database.js:223-238 | The inner loop adds the project's accounts, as many as the sequence still numbers, and fails with an internal fault iff it runs out |
| Seeder.InsertBookingAccounts | seed-database.js:221-239 | The nested loop stores a prefix of the expected accounts, as long as the sequence still numbers, counting them; it succeeds iff the sequence has room for all |
| Seeder.AccountsStopEarly | seed-database.js:221-239 | When project `i` gets only part of its accounts, the sequence had no room for the run, and the stored accounts are the expected prefix up to that count |
| Seeder.SeededAccountsPrefix | seed-database.js:221-239 | The accounts of the first `i` projects, then the first accounts of project `i`, begin the expected output |
| Seeder.SeededAccountsTake | seed-database.js:221-239 | The accounts of the first `j` projects begin the expected output |
| Seeder.InsertSampleUser | seed-database.js:249-255 | One user insert succeeds iff the sequence is not exhausted, storing the next row with the shared timestamp |
| Seeder.InsertUsers | seed-database.js:242-258 | The last loop stores the user rows with consecutive ids and the shared timestamp, as many as the sequence still numbers; it succeeds iff there is room for all |
| Seeder.StoredProjectIdFits | seed-database.js:125 | A stored project id was handed out by its sequence, so it lies in the INTEGER range and binds as `project_id` |
| Seeder.SampleReferencesResolve | seed-database.js:24-33 | The literal department ids resolve iff the department sequence started at 1 |
| Seeder.ProjectsPhaseOutcome | seed-database.js:202-218 | Departments numbered from 1: the project loop stops only where its sequence runs out. Otherwise it fails at its first project, on the foreign key unless the sequence is exhausted |
| Seeder.SeedAccountsAndUsers | seed-database.js:220-258 | The stored accounts and users are the expected prefixes, as far as each sequence reaches; users are reached only when every account went in; completion iff both sequences have room, with the counts |
| Seeder.ClearTables | seed-database.js:180-185 | The four DELETEs empty every table but leave every sequence where it was |
| Seeder.SeedProjectsOnward | seed-database.js:201-264 | After the departments: the project loop's abort, exact rows and ids in every case; then the accounts and users with their exact rows; completion iff the departments were numbered from 1 and every sequence has room |
| Seeder.SeedDatabase | seed-database.js:175-272 | The whole run, with the exact final tables, ids, sequences and outcome in every case: an internal fault where a sequence runs out; a foreign-key abort when the departments were not numbered from 1; otherwise completion with the counts |
| Seeder.FirstRun | seed-database.js:175-272 | On freshly created tables the run completes with 5 departments, 10 projects, 50 booking accounts and 8 users |
| Seeder.SecondRun | seed-database.js:180-218 | Run twice on fresh tables, the second run aborts on a foreign-key violation |
| TimeBookingForm.Rejection | app/components/TimeBookingForm.tsx:11-22 | The fill-both error iff an input is empty; the order error iff both are set and end ≤ start; no error iff start < end |
| TimeBookingForm.Submission | app/components/TimeBookingForm.tsx:16-31 | A slot is emitted iff there is no error; it ends after it starts, lasts the difference, carries the given times, and is numbered by the clock |
| TimeBookingForm.Form.constructor | app/components/TimeBookingForm.tsx:4-6 | Both inputs and the error start empty |
| TimeBookingForm.Form.SetStartTime | app/components/TimeBookingForm.tsx:48 | Sets the start input only |
| TimeBookingForm.Form.SetEndTime | app/components/TimeBookingForm.tsx:56 | Sets the end input only |
| TimeBookingForm.Form.HandleSubmit | app/components/TimeBookingForm.tsx:8-37 | Emits `Submission` of the current inputs; on rejection shows the message and keeps the inputs, otherwise clears error and inputs |
| BookingsPage.AddSlot | app/bookings/page.tsx:9-11 | The list grows by one: the old slots, then the new one |
| BookingsPage.AddAllAppends | app/bookings/page.tsx:9-11 | Adding slots one by one appends them in emission order |
| BookingsPage.PageShowsEmissionHistory | app/bookings/page.tsx:7-11 | Starting from the empty list, the page lists exactly the emitted slots in order |
| BookingsPage.ListedSlotsAreValid | app/bookings/page.tsx:9-16 | Every listed slot that came from the form ends after it starts and lasts the difference |
| AddUserPage.HandleInputChange | app/add-user/page.tsx:95-100 | The named field takes the new value and every other field is unchanged |
| AddUserPage.EditsKeepDropdownsListed | app/add-user/page.tsx:150-167 | Typing and picking options never put an unlisted role or department into the form |
| AddUserPage.FormDropdownsListed | app/add-user/page.tsx:40-45 | From the empty form, role and department stay empty or one of the listed values |
| AddUserPage.Notice | app/add-user/page.tsx:61-85 | Success iff the reply is ok; otherwise the server's error message, the fallback when it is missing or empty, the network message when `fetch` or `json()` throws |
| AddUserPage.Page.constructor | app/add-user/page.tsx:40-46 | Empty form, not loading, no toast, no navigation |
| AddUserPage.Page.InputChange | app/add-user/page.tsx:95-100 | The form becomes `HandleInputChange` of the old form; nothing else changes |
| AddUserPage.Page.BeginSubmit | app/add-user/page.tsx:48-58 | Loading is set and the request body is the current form |
| AddUserPage.Page.FinishSubmit | app/add-user/page.tsx:61-88 | Exactly one toast, `Notice` of the outcome; navigation is scheduled only on an ok reply; loading is cleared on every path |
| AddUserPage.NoticeReportsRouteOutcome | app/add-user/page.tsx:61-79 | Against the users route, the page reports success iff the user was created, and otherwise shows the route's own message |
| AddUserPage.UntouchedFormIsRefused | app/add-user/page.tsx:48-79 | `handleSubmit` on the empty form (when the browser's own check is bypassed) shows the route's required-fields message and does not navigate |

## Left out

- The `pg` connection pool, Next.js request objects and `fetch` are left out. The store is the `Database` class. A lost connection is the `outage` parameter: it fails the statement and changes nothing.
- Closing the pool at the end of the seeding run is not modelled.
- `createTables` (`CREATE TABLE IF NOT EXISTS`) is not modelled as a step. The `Database` constructor gives freshly created tables. The run starts from any state that keeps the constraints.
- Seeder.SeedDatabase: it is stated for any sample data with the shape the script relies on. `Seeder.Samples` are the script's own arrays, and `FirstRun` and `SecondRun` apply the contract to them.
- Seeder.SeedDatabase: a connectivity fault during the run is not modelled. Only the failures the schema produces are: the foreign key, and a sequence that runs out of INTEGER values.
- Booking-account rows are stated up to their ids and timestamps (`Shapes`). The counts and contents are exact.
- Real timestamps are a clock that advances by one per stored row. Rows stored together therefore never tie here, while `CURRENT_TIMESTAMP` can tie. The listings state only that they are sorted and a permutation, so ties are allowed.
- The seeded users' `created_at` values are taken as one instant, `startedAt`. In the script, `new Date()` is evaluated once per user at load time, and those values can differ by milliseconds.
- `ORDER BY name` is modelled as code-point order. A database collation other than C may order differently.
- String lengths are counted in characters of `seq<char>`. JavaScript's UTF-16 units and PostgreSQL's character counting for VARCHAR are not distinguished.
- `parseInt` on a malformed query parameter is not modelled. `IdParam.Given` carries the integer it yields.
- A body field of a non-string type (a number, an object) is not modelled. Fields are absent, null or strings; ids are integers.
- Time inputs are minutes of the day. `new Date` parsing of "HH:MM" strings is not modelled.
- TimeBookingForm.Submission: the duration is in minutes. The source stores hours rounded to two decimals with `toFixed(2)`, and floating point is left out.
- `console.log` and `console.error` output is left out.
- The add-user page's `setTimeout` delay and the router are modelled only as the flag `navigationScheduled`. The toast widget is the list of toasts shown.
- `handleCancel` (navigate home) is left out.
- AddUserPage.UntouchedFormIsRefused: the browser's own validation of the `required` inputs and the `type="email"` field is not modelled. In a browser it stops an empty or malformed form before `handleSubmit` runs; the lemma states what the handler does when that check is bypassed.
- Rendering, `Header`, `TimeSlotList`, the API documentation page and the Swagger comments are not part of this model.
- Concurrency between requests is left out. Each handler runs to completion against the store.
