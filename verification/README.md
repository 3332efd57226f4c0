# Designer marketplace back end: account conversion, designer queries and uploads

This project models three parts of a Node.js/PostgreSQL back end for a marketplace of designers and employers, and proves properties of the model in Dafny.

- **Personal-account service** (`personal.dfy`, module `PersonalService`). It covers:
  - the profile update;
  - the conversion of a personal account into a designer account, which inserts a `designers` row, inserts one `designer_assigned_categories` row per category and then switches the user's role;
  - the conversion into an employer account;
  - the check that an id belongs to a personal account.

  The store is a `Store` object holding the three tables. Each method is tied by its postcondition to a function of the old tables (`UpdateProfileSpec`, `ConvertToDesignerSpec`, `ConvertToEmployerSpec`). The workflow properties are lemmas about those functions: guards, early exits, the missing rollback, and the full success path.
- **Designer service** (`designers.dfy`, module `DesignerService`). It covers:
  - the designer-role check;
  - the listing of designers sorted by first name;
  - the shaping of the paginated listings and the argument order they pass to the store-side functions;
  - the single-designer lookup;
  - the follow toggle on `followings`.
- **Upload handler** (`filemanager.dfy`, module `FileManager`). It covers:
  - classification by extension (`isImageFile` and `isVideoFile`);
  - removal of the `data:…;base64,` header, which is the data-URL syntax of section 3 of RFC 2397;
  - the per-file loop that builds the `{name, type, url}` list and the write for each file.
- **Shared modules.** `schema.dfy` (module `Schema`) holds the `users` rows, the roles and the role queries and updates. `text.dfy` (module `Text`) holds JavaScript's `trim`, the "blank" test and ASCII lower-casing.

The database is abstract. Users, designers and category assignments are sequences in table order, and `followings` is a multiset.

Each statement's failure is a parameter:
- `raises`/`fails` for `UPDATE`, `DELETE` and `INSERT` statements that return nothing;
- a `Reply` (`Raises`, `NoRow`, `Row(v)`) for each `INSERT … RETURNING`.

A raising statement makes the service answer `Failed`, which stands for the error it re-throws.

The stored functions `get_filtered_designers`, `get_public_designers` and `get_designer_data` are function parameters from argument lists to row lists. `Date.now()` is one decimal stamp string per uploaded file.

## Model

| member | source | states |
|---|---|---|
| Text.BlankIffAllWhitespace | services/personal-service.js:72 | `s.toString().trim() === ''` holds exactly when every character of `s` is JavaScript whitespace; the empty string is blank |
| Text.LowerKeeps | routes/file-manager-routes.js:35 | lower-casing keeps every character that is not an upper-case letter |
| Text.Trim | services/personal-service.js:72 | `trim()`: the result neither starts nor ends with JavaScript whitespace; `TrimStart` and `TrimEnd` state that only whitespace was removed |
| Text.IsBlank | services/personal-service.js:72 | defines `s.toString().trim() === ''`; `BlankIffAllWhitespace` states what it means |
| Text.ToLower | routes/file-manager-routes.js:35 | `toLowerCase()`: same length, each character lower-cased on its own |
| Schema.SelectFindsRole | services/personal-service.js:120-122 | "the SELECT returned at least one row" holds exactly when some user has that id and that role |
| Schema.SelectUsers | services/personal-service.js:120 | the SELECT returns exactly the rows with that id and that role |
| Schema.WithRole | services/personal-service.js:47 | the role UPDATE: same number of rows, each row with that id takes the role, every other row is kept |
| Schema.WithRoleGrants | services/personal-service.js:47 | after the role UPDATE, some row with that id holds the new role exactly when a row with that id existed |
| Schema.WithRoleRevokes | services/personal-service.js:60 | after the role UPDATE, no row with that id holds any other role |
| Schema.WithRoleKeepsOthers | services/personal-service.js:47 | the role UPDATE does not change the roles held under any other id |
| PersonalService.ProfileGuardIsBlankTest | services/personal-service.js:72 | the profile guard rejects exactly when the user id, first name or last name is blank; its `.length` tests add nothing |
| PersonalService.WithProfile | services/personal-service.js:34 | the UPDATE rewrites first name, last name, picture and phone of each row with that id and keeps every other row |
| PersonalService.WithProfileEffect | services/personal-service.js:34 | ids, e-mails and roles are kept everywhere; rows with another id are kept whole; the roles held under the id are unchanged |
| PersonalService.RejectsProfile | services/personal-service.js:72 | defines the profile guard; `ProfileGuardIsBlankTest` and `UpdateProfileOutcome` state its effect |
| PersonalService.RejectsDesigner | services/personal-service.js:86 | defines the conversion guard; `ConvertRejected` and `ConvertTrueOnlyOnFullPath` state its effect |
| PersonalService.RejectsEmployer | services/personal-service.js:107 | defines the employer guard; `ConvertToEmployerOutcome` states its effect |
| PersonalService.Assign | services/personal-service.js:18-25 | defines the category loop over the store's replies, one insert per category in list order; its own contract bounds the run (as many ids as rows, no more rows than categories, each row for this designer and a requested category), and `AssignCharacterised` states which rows and ids it holds |
| PersonalService.AssignCharacterised | services/personal-service.js:18-25 | for any mix of replies: the loop raises exactly when some insert raises; up to the first raise it holds one `(category, designerId)` row per insert that returned a row, in list order, and the returned ids of the same inserts in the same order |
| PersonalService.AssignAllReturned | services/personal-service.js:19-24 | when every insert returns a row, the loop inserts `(category, designerId)` for every category in list order and returns the returned ids in that order |
| PersonalService.AssignNoneReturned | services/personal-service.js:21-25 | when no insert returns a row, the loop returns an empty list |
| PersonalService.AssignIdsNonEmpty | services/personal-service.js:21-25 | a loop that does not raise collects some id exactly when some insert returned a row, so the emptiness test at line 92 sees "no row came back" |
| PersonalService.AssignStopsAtRaise | services/personal-service.js:19-28 | a raising insert ends the loop: later categories are not attempted |
| PersonalService.UpdateProfileSpec | services/personal-service.js:71-82 | defines the profile workflow on the tables; `UpdateProfileOutcome` states its properties and `Store.UpdateProfile` is tied to it |
| PersonalService.ConvertToDesignerSpec | services/personal-service.js:84-103 | defines the designer conversion on the tables, with its early exits and no rollback; the `Convert…` lemmas state its properties and `Store.ConvertToDesigner` is tied to it |
| PersonalService.ConvertToEmployerSpec | services/personal-service.js:105-116 | defines the employer conversion on the tables; `ConvertToEmployerOutcome` states its properties and `Store.ConvertToEmployer` is tied to it |
| PersonalService.UpdateProfileOutcome | services/personal-service.js:71-82 | false exactly when the guard rejects, and then nothing changes; true exactly when accepted and not raising, even when no user has the id (then nothing changes); designers and assignments are never touched |
| PersonalService.ConvertRejected | services/personal-service.js:86 | a blank user id, a blank location id or an empty category list answers false with the tables unchanged |
| PersonalService.ConvertWithoutDesignerId | services/personal-service.js:89-98 | without a row, or with a falsy id, the conversion answers false, adds no category row and changes no role; a returned row with id 0 stays inserted |
| PersonalService.ConvertWithoutCategories | services/personal-service.js:91-96 | when no category insert returns a row, the answer is false, the designer row stays (no rollback) and the role is unchanged |
| PersonalService.ConvertFailsMidway | services/personal-service.js:91-101 | when the first raising category insert is the k-th, the conversion fails and keeps the designer row and one category row per earlier insert that returned a row, in list order; roles are unchanged |
| PersonalService.ConvertSucceeds | services/personal-service.js:89-94 | on the full path: one designer row `(userId, locationId)`, one category row per category in order, `users` becomes the role UPDATE of the old table, the id holds DESIGNER exactly when a row with that id existed and never PERSONAL, and the answer is true even when no row had that id |
| PersonalService.ConvertTrueOnlyOnFullPath | services/personal-service.js:84-103 | true exactly on the full path; the conversion only appends to `designers` (at most one row) and to the assignments; roles change only when it answers true |
| PersonalService.ConvertToEmployerOutcome | services/personal-service.js:105-116 | a blank id answers false with nothing changed; otherwise, unless it raises, the id holds EMPLOYER exactly when a row with that id existed and holds neither PERSONAL nor DESIGNER, other ids keep their roles, and the answer is true even when no row had that id |
| PersonalService.Store.CreateDesignerAccount | services/personal-service.js:3-14 | appends the designer row when the insert returns one; answers the returned id, nothing, or failure |
| PersonalService.Store.AssignCategoryForDesigner | services/personal-service.js:16-30 | the loop appends exactly the rows and returns exactly the ids that `Assign` states, or fails after the rows inserted before the raise |
| PersonalService.Store.UpdateProfileData | services/personal-service.js:32-43 | `users` becomes `WithProfile` of the old table; the answer is true unless the statement raises |
| PersonalService.Store.UpdateUserRoleToDesigner | services/personal-service.js:45-56 | `users` becomes `WithRole(…, Designer)` of the old table; the answer is true unless the statement raises |
| PersonalService.Store.UpdateUserRoleToEmployer | services/personal-service.js:58-69 | `users` becomes `WithRole(…, Employer)` of the old table; the answer is true unless the statement raises |
| PersonalService.Store.UpdateProfile | services/personal-service.js:71-82 | new tables and answer are those of `UpdateProfileSpec` on the old tables |
| PersonalService.Store.ConvertToDesigner | services/personal-service.js:84-103 | new tables and answer are those of `ConvertToDesignerSpec` on the old tables |
| PersonalService.Store.ConvertToEmployer | services/personal-service.js:105-116 | new tables and answer are those of `ConvertToEmployerSpec` on the old tables |
| PersonalService.Store.CheckUserAvailable | services/personal-service.js:118-127 | true exactly when some user has that id and the PERSONAL role |
| DesignerService.CheckUserAvailable | services/designer-service.js:3-12 | true exactly when some user has that id and the DESIGNER role |
| DesignerService.DesignerSummaries | services/designer-service.js:16 | one summary per DESIGNER-role row and no other: the m-th is the projection of the m-th DESIGNER-role row in table order |
| DesignerService.DesignerSummariesMembers | services/designer-service.js:16 | a summary is listed exactly when it is the projection of some DESIGNER-role user |
| DesignerService.Summarize | services/designer-service.js:16 | defines the SELECT's column list (id, first and last name, e-mail, role, profile picture); `DesignerSummaries` and `AllDesignersAreTheDesigners` state which rows it is applied to |
| DesignerService.NameLe | services/designer-service.js:16 | defines the comparison behind `ORDER BY first_name` as code-point lexicographic order (see the `DesignerService.NameLe` line under "Left out"); `NameLeTotal`, `NameLeTransitive` and `NameLeAntisymmetric` state that it is a total order |
| DesignerService.NameLeTotal | services/designer-service.js:16 | the first-name order is total |
| DesignerService.NameLeTransitive | services/designer-service.js:16 | the first-name order is transitive |
| DesignerService.NameLeAntisymmetric | services/designer-service.js:16 | the first-name order is antisymmetric |
| DesignerService.SortByFirstName | services/designer-service.js:16 | `ORDER BY first_name`: the result is sorted and a permutation of its input |
| DesignerService.GetAllDesigners | services/designer-service.js:14-24 | the listing is sorted by first name and is a permutation of `DesignerSummaries`, one projection per DESIGNER-role row |
| DesignerService.AllDesignersAreTheDesigners | services/designer-service.js:3-18 | the listed entries are exactly the projections of DESIGNER-role users, one entry per DESIGNER-role row, and an id is listed exactly when the designer check accepts it |
| DesignerService.ListingFirstNamesDetermined | services/designer-service.js:16 | any two sorted permutations of the same rows have the same first names at every position: the order leaves only ties open |
| DesignerService.FilteredArgs | services/designer-service.js:26-28 | `$1…$8` are userId, followed_only, locations, categories, orderBy, search, pageIndex, pageSize: locations and categories are swapped relative to the parameter list |
| DesignerService.FilteredArgsInjective | services/designer-service.js:28 | distinct requests reach the store function as distinct argument lists |
| DesignerService.PublicArgs | services/designer-service.js:58-60 | `$1…$6` are locations, categories, orderBy, search, pageIndex, pageSize |
| DesignerService.ShapePage | services/designer-service.js:31-38 | no rows give `{designers: [], total: 0}`; otherwise all rows unchanged with `total = rows[0].total` |
| DesignerService.PageTotalMatchesEveryRow | services/designer-service.js:35-38 | when the store repeats the same `total` on every row, the page's total agrees with every row |
| DesignerService.GetFilteredDesigners | services/designer-service.js:26-44 | the page is the store function's rows for `FilteredArgs`, shaped as above |
| DesignerService.GetPublicFilteredDesigners | services/designer-service.js:58-77 | the page is the public store function's rows for `PublicArgs`, shaped as above |
| DesignerService.GetDataByDesigner | services/designer-service.js:46-56 | the first row `get_designer_data(designer_id, user_id)` returns, or nothing exactly when it returns none |
| DesignerService.Toggle | services/designer-service.js:84-92 | defines the follow on `followings`: delete every row of a present pair, insert one row for an absent one; `ToggleFlips`, `ToggleTwice` and `ToggleKeepsPairsUnique` state its properties |
| DesignerService.ToggleFlips | services/designer-service.js:82-95 | a follow flips whether the pair is present, leaves it with at most one row, and leaves every other pair's rows as they were |
| DesignerService.ToggleTwice | services/designer-service.js:82-95 | two follows of the same pair restore which pairs are present, and the table itself when the pair had at most one row |
| DesignerService.ToggleKeepsPairsUnique | services/designer-service.js:84-92 | a follow keeps every pair at no more than one row |
| DesignerService.FollowingsTable.Follow | services/designer-service.js:79-103 | the table becomes the toggle of the old one; the answer echoes the inputs with `followed` true exactly when the pair is now present; a raising statement fails and changes nothing |
| FileManager.Split | routes/file-manager-routes.js:35 | `split('.')`: at least one part, no part contains the separator, and joining the parts gives back the name |
| FileManager.SplitJoin | routes/file-manager-routes.js:35 | splitting a join of separator-free parts gives back the parts |
| FileManager.LastSegmentIsDotFreeSuffix | routes/file-manager-routes.js:35 | `.pop()` gives the longest dot-free suffix: the whole name when it has no dot, otherwise what follows its last dot |
| FileManager.LastSegment | routes/file-manager-routes.js:35 | defines `split('.').pop()`; `LastSegmentIsDotFreeSuffix` states what it returns |
| FileManager.Extension | routes/file-manager-routes.js:35 | defines the lower-cased last segment (also line 41); `ExtensionOfDottedName` and `PrefixKeepsExtension` state its properties |
| FileManager.IsImageFile | routes/file-manager-routes.js:33-37 | defines `isImageFile` over the eight image extensions; `ExtensionListsDisjoint` and the example lemmas state its behaviour |
| FileManager.IsVideoFile | routes/file-manager-routes.js:39-43 | defines `isVideoFile` over the eight video extensions; `ExtensionListsDisjoint` and the example lemmas state its behaviour |
| FileManager.PrefixKeepsExtension | routes/file-manager-routes.js:35 | a prefix does not change the extension of a name that has a dot |
| FileManager.ExtensionOfDottedName | routes/file-manager-routes.js:35 | the extension of `base.ext` is `ext` lower-cased |
| FileManager.ExtensionListsDisjoint | routes/file-manager-routes.js:33-43 | no name is both an image and a video |
| FileManager.UpperCaseImageExample | routes/file-manager-routes.js:33-37 | `photo.PNG` is an image |
| FileManager.VideoExample | routes/file-manager-routes.js:39-43 | `clip.mkv` is a video and not an image |
| FileManager.UnknownExtensionExample | routes/file-manager-routes.js:16-21 | `archive.zip` is neither, so it defaults to image |
| FileManager.DotlessNameMatchesNoList | routes/file-manager-routes.js:13-19 | a dotless original name such as `png`, once stamped, matches neither list |
| FileManager.StripDataUrlHeader | routes/file-manager-routes.js:12 | defines the `replace` of `/^data:.*;base64,/`; `StripRemovesGreedyMatch` and `StripRoundTrip` state what it removes |
| FileManager.StripRemovesGreedyMatch | routes/file-manager-routes.js:12 | data with no `data:` … `;base64,` match on its first line is kept; otherwise the greedy match, up to the last marker before the first line break, is removed |
| FileManager.StripRoundTrip | routes/file-manager-routes.js:12 | stripping the header of `data:<media type>;base64,<payload>` gives back the payload |
| FileManager.StampedName | routes/file-manager-routes.js:13 | defines `Date.now() + '-' + file.name`; `StampedTypeFollowsOriginal` and `DotlessNameMatchesNoList` state its effect on the classification |
| FileManager.EntryFor | routes/file-manager-routes.js:16-26 | defines one `{name, type, url}` entry; `EntryMatchesChain` states that it follows the if/else-if chain |
| FileManager.WriteFor | routes/file-manager-routes.js:12-15 | defines one file write: the stamped path and the stripped data |
| FileManager.EntryMatchesChain | routes/file-manager-routes.js:16-21 | the handler's if/else-if choice gives `video` exactly when the stamped name has a video extension, and `image` otherwise |
| FileManager.UploadOne | routes/file-manager-routes.js:12-26 | one file's response entry and write are `EntryFor` and `WriteFor` of the file and its stamp |
| FileManager.Entries | routes/file-manager-routes.js:22-26 | one response entry per file, in input order, the i-th built from the i-th file and its stamp |
| FileManager.Writes | routes/file-manager-routes.js:12-15 | one write per file, in input order, the i-th built from the i-th file and its stamp |
| FileManager.Upload | routes/file-manager-routes.js:9-27 | the loop's response list is `Entries` of the files and stamps, and its writes are `Writes` of them |
| FileManager.StampedTypeFollowsOriginal | routes/file-manager-routes.js:13-19 | for an original name with a dot, the stamp does not change the classification |

## Left out

- Read-only queries (`checkUserAvailable`, `getAllDesigners`, the listings, `getDataByDesigner`) never fail in the model. A failing store there would only be re-thrown.
- Dead branches are not modelled: `return false` in the update helpers and `return null` in `follow`. The database driver always answers with a truthy result object, and its `rows` is always an array.
- The catch blocks of the helpers and of `updateProfile` itself (`services/personal-service.js:78`) log and re-throw through an undefined `e`, so they really throw a ReferenceError. The model has one generic `Failed` outcome and no log output.
- The model covers one sequential request at a time. It leaves out the check-then-act race in `follow` and interleaving between concurrent conversions.
- The role subqueries are assumed to find their keys. A missing `PERSONAL`, `DESIGNER` or `EMPLOYER` key, which would make the subquery NULL, is not modelled.
- DesignerService.NameLe: the database collation behind `ORDER BY first_name` is replaced by code-point lexicographic order.
- Text.ToLower: lower-cases only ASCII letters. JavaScript's full Unicode `toLowerCase` is not modelled; for example, it maps KELVIN SIGN to `k`.
- Ids are strings. A numeric `userId` (`toString()`) and the database's coercion of textual ids are not modelled.
- DesignerService.Row: `total` is an integer. The source passes the column on unchanged, whatever its type.
- The bodies of the stored functions are not part of this model, so their filtering, ordering and pagination are not modelled. Their rows are inputs.
- Base64 decoding, `fs.writeFileSync` and `path.join` are left out. Uploads are the `FileWrite` values the handler would write, so path traversal through `file.name` is not modelled.
- `Date.now()` is read once per file. The model takes those readings as the `stamps` parameter.
- Express request/response handling and the `TokenAuthenticator` middleware are not modelled.
- `routes/index.js` only mounts routers and is not part of this model.
- The source does not check the current role before converting. Converting a DESIGNER to EMPLOYER is accepted, and converting twice issues a second designer INSERT. That adds a second row unless the schema forbids it, and then the conversion fails; the schema is not part of this model, so the designer reply stays a parameter that may be `Raises`. The model follows the code.
