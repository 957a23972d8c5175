# Open Hackathon: hackathon manager, access guards and view filters

This project models three parts of Open Hackathon and proves properties of them.

- **The hackathon manager** (`HackathonManager`). It looks hackathons up by name or id and counts the approved registrations of a hackathon and how many of those users are online. It decides which hackathons an admin user may manage. It reads the `auto_approve` and `recycle_enabled` flags from a hackathon's `basic_info`. It creates hackathons and makes the creator their admin, updates them, and checks an image upload before it goes ahead. The database is a value `Db` held in the field `db` of the class `HackManager.HackathonManager`. Its tables are hackathons, users, registrations and admin relations. A valid store (`HackManager.Valid`) keeps the ids of hackathons and of users unique, and no two hackathons share a name; registrations and admin relations carry no key of their own here.
- **The three access guards** (`token_required`, `hackathon_name_required`, `admin_privilege_required`). Each runs its checks in a fixed order and answers with the error of the first check that fails. When all of them pass, it calls the wrapped handler with the same arguments.
- **The view filters of the management client.** These are `stripTags`, `split`, `defBanner`, `isProvider`, `inArray`, `joinEmails`, `joinVMs` and the status tables. They are modelled over exact models of the JavaScript built-ins they use, in the module `JsText`: `String.prototype.split`, `Array.prototype.join`, `Array.prototype.indexOf`, `parseInt` and the 32-bit `&`.

Files:

- `wrappers.dfy`: `Option`.
- `hackathon_response.dfy`: the responses (`ok`, `bad_request`, `unauthorized`, `access_denied`, `internal_server_error`) and a Python exception that escapes.
- `hack_manager.dfy`: the manager.
- `decorators.dfy`: the guards.
- `js_text.dfy`: the JavaScript built-ins.
- `manage_filters.dfy`: the filters.

Inputs the code takes from outside become parameters:

- the clock (`now`);
- the logged-in user;
- the request header, the uploaded files and their content length;
- the configuration values;
- the result of `json.loads` (`Option<Json>`, where None means it raised);
- the result of `imghdr.what`.

## Model

| member | source | states |
|---|---|---|
| HackManager.FirstWhere | open-hackathon/src/hackathon/hack/__init__.py:57-61 | `find_first_object_by` returns a stored hackathon whose column has the value, and None exactly when no stored hackathon has it |
| HackManager.GetHackathonByNameOrId | open-hackathon/src/hackathon/hack/__init__.py:52-55 | with an id it returns a stored hackathon with that id, and one exists exactly when some stored hackathon has it; without an id, the same by name |
| HackManager.NameIgnoredWhenIdGiven | open-hackathon/src/hackathon/hack/__init__.py:52-55 | when an id is given, the name argument makes no difference and the lookup is the lookup by id |
| HackManager.LookupByIdIsUnique | open-hackathon/src/hackathon/hack/__init__.py:60-61 | in a valid store, looking up a stored hackathon's id finds that very hackathon |
| HackManager.ValidateHackathonName | open-hackathon/src/hackathon/hack/__init__.py:140-156 | a hackathon is found (and becomes `g.hackathon`) exactly when the header is present and some stored hackathon has that name; the one found has it |
| HackManager.PermittedHackathonIds | open-hackathon/src/hackathon/hack/__init__.py:122-129 | the list holds each id once, and holds an id exactly when the user has an admin relation with that hackathon id |
| HackManager.ValidateAdminPrivilege | open-hackathon/src/hackathon/hack/__init__.py:132-138 | true exactly when the user has an admin relation on all hackathons (id -1) or on this one |
| HackManager.PermittedHackathonList | open-hackathon/src/hackathon/hack/__init__.py:113-120 | a user with the id -1 relation gets every hackathon; otherwise exactly the stored hackathons the user has a relation on |
| HackManager.PermittedListAgreesWithPrivilege | open-hackathon/src/hackathon/hack/__init__.py:113-138 | a stored hackathon is in the user's permitted list exactly when the privilege check passes for it |
| HackManager.BasicInfoFlag | open-hackathon/src/hackathon/hack/__init__.py:158-174 | true exactly when `basic_info` parses to an object whose key holds a value equal to 1 in Python: the integer 1, the float 1.0 or `True`; a parse error, a non-object, a missing key or any other value gives false |
| HackManager.IsAutoApprove | open-hackathon/src/hackathon/hack/__init__.py:158-165 | true exactly when `basic_info` parses to an object whose `auto_approve` equals 1 |
| HackManager.IsRecycleEnabled | open-hackathon/src/hackathon/hack/__init__.py:167-174 | true exactly when `basic_info` parses to an object whose `recycle_enabled` equals 1 |
| HackManager.FlagsAreIndependent | open-hackathon/src/hackathon/hack/__init__.py:158-174 | `is_auto_approve` and `is_recycle_enabled` read their own keys: setting one flag's key never changes the other flag |
| HackManager.PassedRegistrations | open-hackathon/src/hackathon/hack/__init__.py:63-66 | exactly the registrations of this hackathon that are not deleted and whose status is AUTO_PASSED or AUDIT_PASSED |
| HackManager.PassedRegistrationsCounts | open-hackathon/src/hackathon/hack/__init__.py:63-66 | every registration keeps its multiplicity when it passes the filter and vanishes otherwise, so every copy of an approved registration is counted |
| HackManager.OnlineCount | open-hackathon/src/hackathon/hack/__init__.py:76-80 | the `db.count` of users whose id is in the list and whose `online` is 1: never more than the users, and 0 exactly when no such user exists |
| HackManager.OnlineCountBound | open-hackathon/src/hackathon/hack/__init__.py:76-80 | with unique user ids, the count of online users among a set of ids is at most the size of the set |
| HackManager.HackathonManager.GetHackathonStat | open-hackathon/src/hackathon/hack/__init__.py:63-82 | total is the number of approved registrations and hid the hackathon's id; with none, online is 0; otherwise online counts the online users among the registered ones; online plus offline is the total and online never exceeds it |
| HackManager.CreatedColumns | open-hackathon/src/hackathon/hack/__init__.py:183-188 | the new record holds the request arguments, both timestamps set to now and the creator set to the current user |
| HackManager.CreatorRel | open-hackathon/src/hackathon/hack/__init__.py:190-195 | the creator's admin relation: the current user, role ADMIN, the new hackathon's id, status 1, remarks 'creator', created now |
| HackManager.CreatorHasPrivilege | open-hackathon/src/hackathon/hack/__init__.py:189-196 | once the creator's admin relation is added, the creator passes the privilege check on the new hackathon |
| HackManager.AppendKeepsValid | open-hackathon/src/hackathon/hack/__init__.py:183-196 | inserting a hackathon under a fresh key and an unused name, with its admin relation, keeps the keys and names of the store unique |
| HackManager.HackathonManager.CreateNewHackathon | open-hackathon/src/hackathon/hack/__init__.py:177-206 | without a name, `bad_request` and no change; with a name already taken, None and no change; otherwise the record and the creator's relation are appended, the new id is returned, the store stays valid, the id can be looked up, and the creator may administer it |
| HackManager.LocateForUpdate | open-hackathon/src/hackathon/hack/__init__.py:208-216 | name or id missing gives `bad_request`; no hackathon with that name raises (`None.id`); a name whose first record has another id gives `bad_request`; any early outcome is one of these three; otherwise the first record with that name, which has that id |
| HackManager.MatchingRequestIsLocated | open-hackathon/src/hackathon/hack/__init__.py:208-216 | a request whose name is first held by a record with the requested id always reaches the update, on that record |
| HackManager.PopProtectedAsWritten | open-hackathon/src/hackathon/hack/__init__.py:227-229 | the three `pop` calls succeed only when `creator_id`, `create_time` and `id` are all among the items, and then remove exactly those |
| HackManager.UpdateAsWrittenAlwaysRaises | open-hackathon/src/hackathon/hack/__init__.py:215-229 | whenever the update passes its checks, the record's `('id', v)` item equals the argument's, so `id` is never an update item and popping it raises |
| HackManager.UpdateAsWrittenCounterexample | open-hackathon/src/hackathon/hack/__init__.py:208-236 | a store with hackathon 1 named "hack" and the arguments name "hack", id 1, status 1 pass the checks, and the pops still fail |
| HackManager.HackathonManager.UpdateHackathonAsWritten | open-hackathon/src/hackathon/hack/__init__.py:208-236 | the check outcomes as the source gives them, and `internal_server_error` for every request that passes them: the update as written never writes |
| HackManager.ChangedFields | open-hackathon/src/hackathon/hack/__init__.py:219 | the `viewitems` difference: exactly the arguments whose key the record lacks or holds with another value, with the argument's value; the matching `id` is never among them |
| HackManager.UpdateItems | open-hackathon/src/hackathon/hack/__init__.py:219-229 | the corrected items are exactly the arguments that differ from the stored record, minus `creator_id`, `create_time` and `id`, plus `update_time` set to now |
| HackManager.UpdateTakesEffect | open-hackathon/src/hackathon/hack/__init__.py:219-231 | after the corrected update, the record agrees with the arguments on every unprotected field; its id, creator and creation time are what they were; `update_time` is now; fields not in the arguments are unchanged |
| HackManager.UpdateKeepsValid | open-hackathon/src/hackathon/hack/__init__.py:208-231 | a corrected update keeps the store's keys and names unique |
| HackManager.HackathonManager.UpdateHackathon | open-hackathon/src/hackathon/hack/__init__.py:208-236 | the check outcomes leave the store unchanged; a request that passes them writes the corrected items into that one record, answers `ok`, and keeps the store valid |
| HackManager.HackathonManager.UploadImagesValidate | open-hackathon/src/hackathon/hack/__init__.py:239-252 | a missing storage account or key gives `internal_server_error`; otherwise too large content gives `bad_request`; otherwise the answer is None exactly when every file is an image, else `bad_request` |
| HackManager.HackathonManager.constructor | open-hackathon/src/hackathon/hack/__init__.py:49-50 | the manager holds the store it is given |
| Decorators.TokenRequired | open-hackathon/src/hackathon/decorators.py:36-42 | the handler's own result exactly when login passes, else `unauthorized("login required")` |
| Decorators.HackathonNameRequired | open-hackathon/src/hackathon/decorators.py:50-56 | the handler's own result exactly when the hackathon name check passes, else `bad_request("hackathon name invalid")` |
| Decorators.AdminPrivilegeRequired | open-hackathon/src/hackathon/decorators.py:64-76 | evaluates login, name and privilege in that order and stops at the first failure, answering with its error; the handler's own result exactly when all three pass |
| Decorators.AdminOrderDecidesError | open-hackathon/src/hackathon/decorators.py:64-76 | for any run of the admin order: the name is checked exactly when login passed, the privilege exactly when both passed, and the error is that of the first failing check |
| Decorators.AdminHandlerRunsIffAdmin | open-hackathon/src/hackathon/decorators.py:64-76 | over a store, an admin-only handler runs exactly when a user is logged in, the header names a stored hackathon, and that user administers it or all hackathons |
| JsText.IndexOf | open-hackathon-client/src/client/static/js/manage.filters.js:34-38 | -1 exactly when the value is absent, otherwise the position of its first occurrence |
| JsText.Join | open-hackathon-client/src/client/static/js/manage.filters.js:48-59 | `Array.prototype.join` on strings: '' for no parts; otherwise it begins with the first part and ends with the last |
| JsText.ArrayJoin | open-hackathon-client/src/client/static/js/manage.filters.js:48-59 | '' for an empty array; otherwise it begins with the first element and ends with the last, null and undefined rendered as '' |
| JsText.SplitOn | open-hackathon-client/src/client/static/js/manage.filters.js:12-20 | a split always has at least one piece |
| JsText.SplitPiecesLackSeparator | open-hackathon-client/src/client/static/js/manage.filters.js:12-20 | no piece of a split contains the separator |
| JsText.JoinSplit | open-hackathon-client/src/client/static/js/manage.filters.js:12-20 | joining the pieces of a split with the same separator gives back the text |
| JsText.SplitJoin | open-hackathon-client/src/client/static/js/manage.filters.js:12-20 | splitting pieces joined with a one-character separator that no piece contains gives back the pieces |
| JsText.Rendered | open-hackathon-client/src/client/static/js/manage.filters.js:48-59 | `join` renders each element as itself, and null or undefined as the empty string |
| JsText.ParseInt | open-hackathon-client/src/client/static/js/manage.filters.js:29-33 | `parseInt`: NaN (None) for a radix outside 2 to 36 other than 0, and for text that is empty after leading white space; a negative result needs a leading '-' |
| JsText.ParseDecimalString | open-hackathon-client/src/client/static/js/manage.filters.js:29-33 | `parseInt` with radix 10 or none reads back the decimal form of every natural number |
| JsText.ToInt32 | open-hackathon-client/src/client/static/js/manage.filters.js:29-33 | ToInt32 gives the value congruent to its argument modulo 2^32 in [-2^31, 2^31) |
| JsText.BitAnd | open-hackathon-client/src/client/static/js/manage.filters.js:29-33 | `a & b` is a 32-bit signed value; when either operand is in [0, 2^31), the result is between 0 and that operand |
| JsText.AndBitsKeepsAll | open-hackathon-client/src/client/static/js/manage.filters.js:29-33 | and-ing keeps all of a value exactly when every bit of the value is set in the other operand |
| JsText.BitAndKeepsValue | open-hackathon-client/src/client/static/js/manage.filters.js:29-33 | for a value in [0, 2^31), `v == (a & v)` exactly when every bit of `v` is set in `a` |
| ManageFilters.RemoveTags | open-hackathon-client/src/client/static/js/manage.filters.js:6-10 | removing tags never lengthens the text and introduces no new characters; text without a tag comes back unchanged |
| ManageFilters.RemoveTagsLeavesNoTag | open-hackathon-client/src/client/static/js/manage.filters.js:6-10 | one pass of the tag replacement leaves no tag in the text |
| ManageFilters.RemoveNbsp | open-hackathon-client/src/client/static/js/manage.filters.js:6-10 | removing `&nbsp;` in any letter case never lengthens the text; text without one comes back unchanged |
| ManageFilters.StripTags | open-hackathon-client/src/client/static/js/manage.filters.js:6-10 | a missing or empty input gives ''; the output is never longer than the input; an input without tags or `&nbsp;` comes back unchanged |
| ManageFilters.Separator | open-hackathon-client/src/client/static/js/manage.filters.js:12-14 | `limit || ','`: the given separator when it is non-empty, and ',' when it is missing or empty; never empty |
| ManageFilters.Split | open-hackathon-client/src/client/static/js/manage.filters.js:12-20 | a missing or empty text gives []; otherwise at least one piece, none containing the separator, and joining them with it gives back the text |
| ManageFilters.DefBanner | open-hackathon-client/src/client/static/js/manage.filters.js:21-24 | the first banner when there is one, else the default picture; always a banner or the default |
| ManageFilters.ParseProviders | open-hackathon-client/src/client/static/js/manage.filters.js:29-31 | the decimal value `parseInt` reads, or 0 when it reads none (NaN) |
| ManageFilters.IsProvider | open-hackathon-client/src/client/static/js/manage.filters.js:29-33 | `value == (providers & value)`: holds only for 32-bit signed values, and always for 0 |
| ManageFilters.IsProviderIffBitsWithin | open-hackathon-client/src/client/static/js/manage.filters.js:29-33 | for a value in [0, 2^31), `isProvider` holds exactly when every bit of the value is set in the providers mask |
| ManageFilters.UnparsableProvidesNothing | open-hackathon-client/src/client/static/js/manage.filters.js:29-33 | when the providers text holds no number, only the value 0 is provided |
| ManageFilters.NumericProviders | open-hackathon-client/src/client/static/js/manage.filters.js:29-33 | a numeric providers value acts as the number itself in the `&` |
| ManageFilters.InArray | open-hackathon-client/src/client/static/js/manage.filters.js:34-38 | true exactly when the array is present and holds the value |
| ManageFilters.FieldValues | open-hackathon-client/src/client/static/js/manage.filters.js:53-55 | every value comes from an entry that has the key; the list is empty exactly when no entry has the key |
| ManageFilters.FieldValuesAppend | open-hackathon-client/src/client/static/js/manage.filters.js:53-55 | one more entry adds its value exactly when it has the key |
| ManageFilters.JoinField | open-hackathon-client/src/client/static/js/manage.filters.js:48-59 | '' for a missing list; otherwise the values of the entries that have the key, in list order, joined with the filler, which is ',' when missing or empty |
| ManageFilters.JoinEmails | open-hackathon-client/src/client/static/js/manage.filters.js:48-59 | the `email` values of the entries that have one, joined with the filler (`filler || ','`, by `Separator`); '' for a missing list |
| ManageFilters.JoinVMs | open-hackathon-client/src/client/static/js/manage.filters.js:80-91 | the `name` values of the entries that have one, joined with the filler; '' for a missing list |
| ManageFilters.SplitUndoesJoinField | open-hackathon-client/src/client/static/js/manage.filters.js:48-59 | the `split` filter undoes a one-character join when no value contains the filler and the join is not empty |
| ManageFilters.ImageStatus | open-hackathon-client/src/client/static/js/manage.filters.js:39-47 | a label exactly for the codes 0 to 2 |
| ManageFilters.HackUserStatus | open-hackathon-client/src/client/static/js/manage.filters.js:60-69 | a label exactly for the codes 0 to 3 |
| ManageFilters.HackUserType | open-hackathon-client/src/client/static/js/manage.filters.js:70-79 | a label exactly for the codes 0 to 3 |
| ManageFilters.ExprStatus | open-hackathon-client/src/client/static/js/manage.filters.js:92-105 | a label exactly for the codes 0 to 8 except 4 |
| ManageFilters.StatusLabelsDetermineCodes | open-hackathon-client/src/client/static/js/manage.filters.js:39-105 | in each status table, different codes get different labels |
| ManageFilters.OrganizationType | open-hackathon-client/src/client/static/js/manage.filters.js:106-113 | a label exactly when `parseInt` (no radix) reads 1 or 2 |
| ManageFilters.OrganizationTypeOfNumbers | open-hackathon-client/src/client/static/js/manage.filters.js:106-113 | for a numeric type: the organizer label for 1, the partner label for 2, and '' for every other number |

## Left out

- `toDate` builds a `Date`. Dates and the clock are not part of this model.
- `console.log` in `split` is left out: output only.
- `upload_files` is left out. It creates a storage container, builds names from `uuid` and the clock, and uploads to Azure, all of which is I/O. Its check step is `UploadImagesValidate`. Note that `upload_files` ignores the result of that check.
- `get_hackathon_list` and `get_user_hackathon_list` are outer-join SQL queries and are left out.
- Database failures are not modelled. This covers `internal_server_error` in create (lines 197-206), the exception branch of `validate_hackathon_name` and the failure of `update_object`. An insert that fails between the hackathon and its admin relation is not modelled either.
- `user_manager.validate_login` is not part of this model. The logged-in user is a parameter.
- `$translate.instant` is taken to return its key. The translation tables are not part of this model.
- The enum and configuration values are taken to be the following, because the modules that define them are not part of this model:
  - RGStatus: AUDIT_PASSED 1, AUTO_PASSED 3.
  - ADMIN_ROLE_TYPE.ADMIN: 1.
  - The basic_info keys: `auto_approve` and `recycle_enabled`.
- HackManager.HackathonManager.CreateNewHackathon: an `id` among the arguments is dropped and the store hands out the key. An argument that is not a column (SQLAlchemy raises) is not modelled.
- `json.loads` results are `Json` values with integer and real numbers. NaN and the infinities, which Python's parser also accepts, are not modelled; none of them equals 1.
- HackManager.PassedRegistrations: `deleted` is an integer. A NULL `deleted`, which SQL's `!= 1` excludes, is not modelled.
- HackManager.PermittedHackathonIds: `list(set(...))` has no defined order in Python. The model fixes one (first relation first) and proves only membership and uniqueness.
- HackManager.LocateForUpdate: `dict.viewitems()` differences hash the values. An unhashable value such as a dict in `basic_info` raises TypeError, which the except turns into `internal_server_error`. This is not modelled.
- HackManager.HackathonManager.UpdateHackathon: the `json.dumps` of `basic_info` and `extra_info` rewrites `args` only after the update items are taken, so it never reaches the written record. The model leaves it out.
- HackManager.HackathonManager.UploadImagesValidate: the size limit is an integer. A missing limit (TypeError in Python) and several files under one field name are not modelled.
- ManageFilters.IsProviderIffBitsWithin: stated only for values in [0, 2^31). `IsProvider` itself models every integer with ToInt32 and ToUint32.
- `isProvider`, the status tables, `stripTags`, `split` and `defBanner` take numbers and strings here. Other JavaScript values are not modelled: strings given to the strictly compared status switches, a non-string `html` or `text`, a regular-expression separator, a missing array for `defBanner`.
- `parseInt` is exact on integers. Precision loss above 2^53 and the exponent form of huge numbers are not modelled.
- `joinEmails` and `joinVMs` push into implicit globals (`emailList`, `vmList`). Entries are maps from keys to strings or null. Inherited properties and values that are not strings are not modelled.

## Findings

| source | as written | input that shows it | evidently intended | confidence | as-written member | corrected member |
|---|---|---|---|---|---|---|
| open-hackathon/src/hackathon/hack/__init__.py:227-229 | `update_items.pop('id')` has no default. The check at line 215 has just made the record's id equal to `args['id']`, so the difference at line 219 drops `('id', v)` and the pop raises KeyError. The except turns this into `internal_server_error("fail to update hackathon")`, and `update_object` is never reached. `creator_id` and `create_time` fail the same way whenever the request leaves them out. | a store holding hackathon 1 named "hack"; arguments name "hack", id 1, status 1 | pop the protected keys with a default (`pop(key, None)`), write the differing fields with the new `update_time`, and answer "update hackathon succeed" | medium, not executed (it relies on `Hackathon.dic()` including `id`; models.py is not part of this model) | HackManager.UpdateAsWrittenAlwaysRaises | HackManager.HackathonManager.UpdateHackathon |
