# Chamilo course-backup naming and advanced-subscription queue rules, in Dafny

This project models two independent pieces of decision logic from Chamilo LMS and proves properties about them.

**The course archiver.**
- `write_course` names each backup zip `<userId>_<courseCode>_<Ymd-His>.zip`.
- `get_available_backups` turns the archive directory's entries back into `{file, date, course_code}` records. It explodes each name on `_` and then on `.`, checks the extension, applies the owner filter, and rebuilds the date from fixed offsets.
- `clean_backup_dir` removes only directories whose names carry the `CourseArchiver_` prefix.
- `read_course` accepts a decoded object only if its class is `Course` or the namespaced course class. Otherwise it returns an empty course.

**The advanced-subscription plugin.**
- The queue table is a finite map keyed by (user id, session id), with an auto-increment id counter.
- `addToQueue` inserts a row, `getQueueStatus` reads one, and `updateQueueStatus` changes rows through its where-clause.
- The eligibility chain `isAllowedToDoRequest` checks its limits in a fixed order, and `startSubscription` runs it.
- Also modelled: `getVacancy`, the status message, and the validation labels of the admin queue view.
- The request hash: `generateHash` is sha1 of PHP's `serialize` of six normalised fields, followed by sha1 of the secret key. `checkHash` compares against it.

Modules:
- `Php` (`php.dfy`) holds the PHP built-ins the code relies on: `explode`, `implode`, `substr`, `strpos`, `intval`, integer-to-string conversion and zero padding.
- `CourseArchiver` (`course_archiver.dfy`) holds the archiver rules.
- `SubscriptionQueue` (`subscription_queue.dfy`) holds the queue table and the operations on it.
- `SubscriptionRules` (`subscription_rules.dfy`) holds the eligibility chain and `startSubscription`.
- `RequestHash` (`request_hash.dfy`) holds `generateHash`/`checkHash` and a reader for the serialization.

Parameters stand in for I/O and for code outside the model:
- the directory listing;
- the clock;
- unique ids;
- the course encoder/decoder pair;
- sha1;
- the web service's answer;
- the settings;
- the sessions already taken this credit year;
- the count of admin-approved rows.

## Model

| member | source | states |
|---|---|---|
| Php.Explode | src/Chamilo/CourseBundle/Component/CourseCopy/CourseArchiver.php:150 | `explode` yields one more piece than there are separators. No piece contains the separator, and imploding the pieces gives the input back. |
| Php.ExplodeImplode | src/Chamilo/CourseBundle/Component/CourseCopy/CourseArchiver.php:150 | Exploding the implosion of separator-free pieces returns exactly those pieces. |
| Php.Substr | src/Chamilo/CourseBundle/Component/CourseCopy/CourseArchiver.php:158 | `substr` past the end is empty. Otherwise it is the requested length, cut short at the end of the text, and each character is the text's character at start + offset. |
| Php.StrposZeroIsPrefix | src/Chamilo/CourseBundle/Component/CourseCopy/CourseArchiver.php:25 | `strpos(name, prefix) === 0` holds exactly when the name starts with the prefix. |
| Php.IntValOfIntToString | plugin/advanced_subscription/src/AdvancedSubscriptionPlugin.php:1100 | `intval` of an integer's decimal rendering gives back that integer, negative values included. |
| Php.ZeroPad | src/Chamilo/CourseBundle/Component/CourseCopy/CourseArchiver.php:54 | A zero-padded field is all digits and as long as the requested width or the number's digits, whichever is longer. Every character before the number's digits is `0`, and the field ends with those digits, so a number wider than the field is its digits unchanged. |
| Php.IntVal | plugin/advanced_subscription/src/AdvancedSubscriptionPlugin.php:1100-1104 | `intval` of a text that, after leading white space, starts with neither a digit nor a sign is 0. A negative result needs a leading `-`. |
| Php.DigitsLength | src/Chamilo/CourseBundle/Component/CourseCopy/CourseArchiver.php:54 | A number below 10^k has at most k digits, so the padded date fields have their nominal widths. |
| CourseArchiver.ArchiveName | src/Chamilo/CourseBundle/Component/CourseCopy/CourseArchiver.php:54 | Every zip name starts with `<userId>_<courseCode>_` and ends with `.zip`. |
| CourseArchiver.TempDirName | src/Chamilo/CourseBundle/Component/CourseCopy/CourseArchiver.php:46 | Every temporary directory name starts with `CourseArchiver_`. |
| CourseArchiver.WriteCourse | src/Chamilo/CourseBundle/Component/CourseCopy/CourseArchiver.php:39-67 | The staging directory carries the prefix. `course_info.dat` holds the encoded course. The zip is named by the line-54 pattern (`CourseArchiver.ArchiveName`), and the name explodes on `_` into three parts plus one more for each underscore in the course code. |
| CourseArchiver.StampChars | src/Chamilo/CourseBundle/Component/CourseCopy/CourseArchiver.php:54 | A `Ymd-His` stamp (`Stamp`, the time as four year digits, two each for month and day, `-`, two each for hour, minute and second) contains neither `_` nor `.`. |
| CourseArchiver.ArchiveNameUnderscores | src/Chamilo/CourseBundle/Component/CourseCopy/CourseArchiver.php:54 | An archive name has exactly two underscores more than its course code. |
| CourseArchiver.CodeWithUnderscoreNeverListed | src/Chamilo/CourseBundle/Component/CourseCopy/CourseArchiver.php:150-151 | The backup of a course whose code contains `_` is never listed, whatever the filter. |
| CourseArchiver.ParseEntry | src/Chamilo/CourseBundle/Component/CourseCopy/CourseArchiver.php:150-163 | A listed record carries the entry name unchanged and a course code without `_`. The entry has exactly two underscores, and its third part has extension `zip`. |
| CourseArchiver.SplitThree | src/Chamilo/CourseBundle/Component/CourseCopy/CourseArchiver.php:150-153 | A name made of three underscore-free parts joined by `_` explodes into exactly those owner, code and rest parts. |
| CourseArchiver.DotSegments | src/Chamilo/CourseBundle/Component/CourseCopy/CourseArchiver.php:154-156 | The date is the text before the first dot. The extension (`Extension`, piece 1 of exploding on `.`, none when there is no dot) is the segment after it, up to the next dot. |
| CourseArchiver.ParseThreeParts | src/Chamilo/CourseBundle/Component/CourseCopy/CourseArchiver.php:150-163 | Such a name is listed exactly when its extension is `zip` and the owner passes the filter. The record is then (name, rebuilt date, middle part). |
| CourseArchiver.TrailingSuffixAccepted | src/Chamilo/CourseBundle/Component/CourseCopy/CourseArchiver.php:154-157 | `…date.zip.bak` is listed when the owner passes the filter. |
| CourseArchiver.DoubleExtensionRejected | src/Chamilo/CourseBundle/Component/CourseCopy/CourseArchiver.php:154-157 | `…date.tar.zip` is never listed. |
| CourseArchiver.NoDotRejected | src/Chamilo/CourseBundle/Component/CourseCopy/CourseArchiver.php:154-157 | A third part without a dot has a null extension and is never listed. |
| CourseArchiver.ZeroFilterIsNoFilter | src/Chamilo/CourseBundle/Component/CourseCopy/CourseArchiver.php:157 | User id 0 lists exactly what no user id lists. A real filter only removes entries. The filter test `OwnerAccepted` lets an entry through when the filter is off (`FilterActive`: the id is unset or 0) or when its owner field matches (`OwnerMatches`: `intval` of the field equals the id). |
| CourseArchiver.RebuildDate | src/Chamilo/CourseBundle/Component/CourseCopy/CourseArchiver.php:158 | For a date part of at least 15 characters the rebuilt date has 19 characters. It carries `-`, `-`, a space, `:` and `:` at positions 4, 7, 10, 13 and 16, starts with the first four characters and ends with the characters at 13 and 14. |
| CourseArchiver.RebuildFields | src/Chamilo/CourseBundle/Component/CourseCopy/CourseArchiver.php:158 | The offsets 0, 4, 6, 9, 11 and 13 pick the six fields of `YYYYMMDD-HHMMSS` and skip index 8. |
| CourseArchiver.RebuildDateOnly | src/Chamilo/CourseBundle/Component/CourseCopy/CourseArchiver.php:158 | An eight-character date rebuilds to `YYYY-MM-DD ::`, because the time substrings past its end are empty. |
| CourseArchiver.RebuildStamp | src/Chamilo/CourseBundle/Component/CourseCopy/CourseArchiver.php:158 | For years up to 9999, rebuilding the `Ymd-His` stamp (`Stamp`) gives the `Y-m-d H:i:s` rendering of the same time (`DisplayDate`: the same zero-padded fields joined by `-`, a space and `:`). |
| CourseArchiver.WrittenNameIsListed | src/Chamilo/CourseBundle/Component/CourseCopy/CourseArchiver.php:150-163 | Round trip with the name from line 54: for a code without `_`, the name is listed exactly when the filter is off or names the writer. The record is then (name, `Y-m-d H:i:s` of the stamp, code). |
| CourseArchiver.Listed | src/Chamilo/CourseBundle/Component/CourseCopy/CourseArchiver.php:149-165 | The reference listing has no more records than entries (`CourseArchiver.ListedSnoc` adds at most one per entry). Each record is what its own file name parses to. |
| CourseArchiver.AvailableBackups | src/Chamilo/CourseBundle/Component/CourseCopy/CourseArchiver.php:144-171 | The loop returns the reference listing of the entries in directory order. There are no more records than entries, and each record comes from an entry and parses back to itself. |
| CourseArchiver.ListedSnoc | src/Chamilo/CourseBundle/Component/CourseCopy/CourseArchiver.php:149-165 | Reading one more entry appends that entry's record, if it has one. |
| CourseArchiver.ListedMembers | src/Chamilo/CourseBundle/Component/CourseCopy/CourseArchiver.php:149-165 | A record is listed exactly when some entry parses to it. |
| CourseArchiver.ListedAppend | src/Chamilo/CourseBundle/Component/CourseCopy/CourseArchiver.php:149-165 | Directory order is kept: listing two runs of entries is listing each run in turn. |
| CourseArchiver.CleanupTargets | src/Chamilo/CourseBundle/Component/CourseCopy/CourseArchiver.php:19-33 | A name is removed exactly when some entry with that name passes the clean-up test. |
| CourseArchiver.RemovableIsPrefixedDirectory | src/Chamilo/CourseBundle/Component/CourseCopy/CourseArchiver.php:24-26 | The clean-up test `Removable` (not `.`, not `..`, `strpos` of the prefix is 0, a directory) holds exactly when the entry is a directory whose name starts with `CourseArchiver_`. The `.`/`..` tests add nothing. |
| CourseArchiver.TempDirIsRemovable | src/Chamilo/CourseBundle/Component/CourseCopy/CourseArchiver.php:202 | Every temporary directory the read or write path creates is removed by the next clean-up. |
| CourseArchiver.ArchiveIsNotRemovable | src/Chamilo/CourseBundle/Component/CourseCopy/CourseArchiver.php:24-26 | A backup zip's name never passes the clean-up test. |
| CourseArchiver.ReadCourse | src/Chamilo/CourseBundle/Component/CourseCopy/CourseArchiver.php:216-264 | A missing `course_info.dat` gives an empty course. So does a decoded value that is not an object of class `Course` or of the namespaced course class. Otherwise the result is the decoded course with `backup_path` set to the unzip directory. |
| CourseArchiver.WriteThenRead | src/Chamilo/CourseBundle/Component/CourseCopy/CourseArchiver.php:254-264 | When decoding inverts encoding, reading back what the writer stored returns the course with `backup_path` set to the unzip directory. The part of that `backup_path` below the archive path names a directory the clean-up removes. |
| CourseArchiver.WriteThenList | src/Chamilo/CourseBundle/Component/CourseCopy/CourseArchiver.php:150-163 | Round trip from `write_course` to `get_available_backups`: for a code without `_`, a directory holding just the written zip lists exactly one record (zip name, `Y-m-d H:i:s` of the write time, code) when the filter is off or names the writer, and nothing otherwise. |
| SubscriptionQueue.AddToQueue | plugin/advanced_subscription/src/AdvancedSubscriptionPlugin.php:256-274 | The insert fails, leaving the table unchanged, exactly when the (user, session) key is taken. Otherwise it adds one row with status START, no `updated_at` and the returned id, and every other row is kept. |
| SubscriptionQueue.AddToQueueValid | plugin/advanced_subscription/src/AdvancedSubscriptionPlugin.php:109-118 | Inserting keeps the primary key valid: ids stay positive, below the counter and unique. A returned id is non-zero. |
| SubscriptionQueue.GetQueueStatus | plugin/advanced_subscription/src/AdvancedSubscriptionPlugin.php:799-825 | Returns false exactly when either id is 0. Otherwise it returns the pair's row status, or NO_QUEUE when there is no row. |
| SubscriptionQueue.AddThenStatus | plugin/advanced_subscription/src/AdvancedSubscriptionPlugin.php:263-269 | A pair reads NO_QUEUE before a successful insert and START after it. |
| SubscriptionQueue.UpdateQueueStatus | plugin/advanced_subscription/src/AdvancedSubscriptionPlugin.php:429-460 | The where-clause (`WhereOf`) is by queue id when one is given, else by user and session when both are given, else there is none. With no where-clause, nothing changes and the result is false. Otherwise exactly the rows the clause selects (`Selects`: the id matches, or the pair matches and the status is neither the new one nor ADMIN_APPROVED) get the new status and timestamp. Keys, ids, message ids and the counter are untouched. |
| SubscriptionQueue.UpdateKeepsValid | plugin/advanced_subscription/src/AdvancedSubscriptionPlugin.php:429-460 | An update keeps the primary key valid. |
| SubscriptionQueue.UpdateById | plugin/advanced_subscription/src/AdvancedSubscriptionPlugin.php:432-435 | With a queue id, that row's status is set unconditionally and no other row changes. The result is true unless the row already held those values. |
| SubscriptionQueue.UpdateByPair | plugin/advanced_subscription/src/AdvancedSubscriptionPlugin.php:436-445 | By user and session, the update succeeds exactly when the pair's row has a status other than the new one and other than ADMIN_APPROVED. Only that row changes. |
| SubscriptionQueue.AdminApprovalIsFinal | plugin/advanced_subscription/src/AdvancedSubscriptionPlugin.php:436-445 | Without a queue id, an ADMIN_APPROVED row is never changed. |
| SubscriptionQueue.GetVacancy | plugin/advanced_subscription/src/AdvancedSubscriptionPlugin.php:832-855 | Returns false exactly for session 0 or a vacancies field whose value is 0. Otherwise the result is the vacancies minus the approved count, clamped at 0. It is 0 exactly when the approved rows fill the session. |
| SubscriptionQueue.Validation | plugin/advanced_subscription/src/AdvancedSubscriptionPlugin.php:1041-1058 | `''` exactly for NO_QUEUE/START and `'No'` exactly for the two disapprovals. `'Yes'` exactly for the two approvals. An unknown status leaves the label unset. |
| SubscriptionQueue.AdminQueue | plugin/advanced_subscription/src/AdvancedSubscriptionPlugin.php:1026-1040 | A user is in the admin view exactly when the user exists, has a row for the session, and that row is neither ADMIN_APPROVED nor ADMIN_DISAPPROVED. The entry carries the row's id and status. |
| SubscriptionQueue.AdminQueueLabels | plugin/advanced_subscription/src/AdvancedSubscriptionPlugin.php:1029-1058 | In the admin view, `'Yes'` means BOSS_APPROVED and `'No'` means BOSS_DISAPPROVED, and nothing else. |
| SubscriptionQueue.StatusMessage | plugin/advanced_subscription/src/AdvancedSubscriptionPlugin.php:915-948 | Only an unknown status gets the formatted default message, and that message carries the raw status code. The `NoQueueIsAble` text is used exactly for NO_QUEUE with `isAble` set. |
| SubscriptionQueue.StatusMessageDetermined | plugin/advanced_subscription/src/AdvancedSubscriptionPlugin.php:915-948 | Every status has its own message, so the status can be read back from it. The `isAble` flag matters only for NO_QUEUE. |
| SubscriptionRules.IsAllowedToDoRequest | plugin/advanced_subscription/src/AdvancedSubscriptionPlugin.php:148-248 | Never returns false. It returns true exactly when all four inclusive limits hold. Otherwise it throws the error of the first failing check, in the order profile, cost, hours, count. |
| SubscriptionRules.DeadRejections | plugin/advanced_subscription/src/AdvancedSubscriptionPlugin.php:153-178 | The not-connected and incomplete-induction errors are never thrown, and the induction setting changes nothing. |
| SubscriptionRules.ProfileCompleted | plugin/advanced_subscription/src/AdvancedSubscriptionPlugin.php:156-173 | With a service URL, the percentage is the service's answer, or 0 when the call fails. Without one, it is the `profile_completed` parameter when set, else 0. |
| SubscriptionRules.ProfileSource | plugin/advanced_subscription/src/AdvancedSubscriptionPlugin.php:156-173 | Exactly one source decides: with a service URL the request parameters are ignored, and without one the service answer is ignored. |
| SubscriptionRules.StartSubscription | plugin/advanced_subscription/src/AdvancedSubscriptionPlugin.php:311-330 | An empty id gives `Params not found`. A rejection gives its message and leaves the queue alone. A boolean is returned only after the chain allowed the request, and `true` means a new START row with null `updated_at`. |
| SubscriptionRules.StartSubscriptionOutcomes | plugin/advanced_subscription/src/AdvancedSubscriptionPlugin.php:314-327 | Case by case: rejected gives the message, already queued gives `false`, and otherwise `true` with a valid queue where the pair reads START. |
| RequestHash.Prepare | plugin/advanced_subscription/src/AdvancedSubscriptionPlugin.php:1099-1104 | A set `action` is kept as it is and a set id becomes its `intval`. An unset `action` prepares to the empty text, and each unset id key prepares to 0 (`strval(null)` and `intval(null)`). |
| RequestHash.Serialize | plugin/advanced_subscription/src/AdvancedSubscriptionPlugin.php:1105 | The serialized array starts with `a:6:{` and ends with `}`; `RequestHash.UnserializeSerialize` reads it back. |
| RequestHash.GenerateHash | plugin/advanced_subscription/src/AdvancedSubscriptionPlugin.php:1095-1107 | The hash is sha1 of a text that reads back as the prepared fields followed by sha1 of the secret key. |
| RequestHash.ReadIntEntriesRoundTrip | plugin/advanced_subscription/src/AdvancedSubscriptionPlugin.php:1100-1105 | The serialized integer entries read back as the same keys and values, whatever text follows. |
| RequestHash.UnserializeSerialize | plugin/advanced_subscription/src/AdvancedSubscriptionPlugin.php:1099-1105 | The serialized prepared array reads back as the same six fields, whatever text follows. |
| RequestHash.HashInputInjective | plugin/advanced_subscription/src/AdvancedSubscriptionPlugin.php:1105-1106 | The sha1 input (`HashInput`: the serialization of the prepared fields followed by sha1 of the secret key) is injective: equal inputs mean equal prepared fields and equal hashed keys. |
| RequestHash.HashInputDeterminesHashedKeys | plugin/advanced_subscription/src/AdvancedSubscriptionPlugin.php:1099-1106 | Equal sha1 inputs mean the two requests have the same `action` text and the same `intval` of each of the five ids, so every hashed key feeds the hash. |
| RequestHash.HashOnlyReadsHashedKeys | plugin/advanced_subscription/src/AdvancedSubscriptionPlugin.php:1097-1106 | Requests that agree on `strval(action)` and on the `intval` of the five ids have the same hash, whatever other keys they carry. |
| RequestHash.PrepareIgnoresSessionRendering | plugin/advanced_subscription/src/AdvancedSubscriptionPlugin.php:1100 | Replacing `sessionId` by a text with the same `intval` leaves the prepared data unchanged. |
| RequestHash.CheckHash | plugin/advanced_subscription/src/AdvancedSubscriptionPlugin.php:1115-1118 | Corrected check: it accepts exactly the request's own hash. |
| RequestHash.GeneratedHashChecks | plugin/advanced_subscription/src/AdvancedSubscriptionPlugin.php:1095-1118 | A generated hash always passes the check, also after `sessionId` is re-rendered from its integer value. |
| RequestHash.LooseEquals | plugin/advanced_subscription/src/AdvancedSubscriptionPlugin.php:1117 | PHP's `==` on two strings holds for equal strings and for any two numeric strings of value zero, and for different strings only in that case. |
| RequestHash.CheckHashAsWritten | plugin/advanced_subscription/src/AdvancedSubscriptionPlugin.php:1117 | The loose `==` accepts every hash the exact check accepts. Within the modelled part of `==`, it accepts another one only when both strings are numeric strings of value zero. |
| RequestHash.ZeroNumericOf | plugin/advanced_subscription/src/AdvancedSubscriptionPlugin.php:1117 | Every text made of leading white space, an optional sign, a mantissa of zeros with at most one decimal point, and an optional exponent is a numeric string of value zero. |
| RequestHash.PointedZero | plugin/advanced_subscription/src/AdvancedSubscriptionPlugin.php:1117 | Zeros on either side of a decimal point (`0.0`, `.0`, `0.`), signed or not, are numeric zero. |
| RequestHash.SignedZeros | plugin/advanced_subscription/src/AdvancedSubscriptionPlugin.php:1117 | A run of zeros with an optional sign (`0`, `-0`, `+000`) is numeric zero. |
| RequestHash.MagicHashAccepted | plugin/advanced_subscription/src/AdvancedSubscriptionPlugin.php:1117 | For any sha1 and any request whose digest is `0e` followed by one or more decimal digits, the hash `"0"` passes the check as written but not the exact check. |
| RequestHash.MagicHashWitness | plugin/advanced_subscription/src/AdvancedSubscriptionPlugin.php:1117 | The premise is reachable: under a sha1 whose output is `0e` followed by one or more digits, the hash `"0"` passes the check as written and fails the exact check for every request. |
| RequestHash.ZeroHashAccepted | plugin/advanced_subscription/src/AdvancedSubscriptionPlugin.php:1117 | For any sha1 and any such digest, every other numeric string of value zero passes the check as written and fails the exact check. |

## Left out

- File system and zip work is not modelled, because it is I/O: `mkdir`, `copy`, `copyDirTo`, PclZip, `fopen`/`fwrite`, `rmdirr` and the document copying in `write_course`. The `class_alias` calls are left out too. The clean-up's directory test and the presence of `course_info.dat` are inputs.
- PHP's `serialize`/`base64_encode` of a course object and `unserialize`/`base64_decode` are an abstract `encode`/`decode` pair.
- `CourseArchiver.ReadCourse`: a decoded value that is not an object gives the empty course. That is the PHP 7 behaviour, where `get_class` returns false. The TypeError PHP 8 raises there is not modelled.
- `import_uploaded_file` is left out, because it only moves an uploaded file.
- The contents and order of the directory listing are whatever the directory yields. They are an input sequence.
- `CourseArchiver.OwnerMatches`: PHP's loose `$owner_id == $user_id` is modelled as `intval(owner) == user id`. PHP 8's "non-numeric string vs integer" rule and float/exponent strings are not modelled.
- `CourseArchiver.RebuildStamp`: proved only for years 0–9999. Longer years shift the fixed offsets, and years before 0 are not modelled.
- The database layer (`Database::select/insert/update`) is replaced by the queue map and explicit inputs.
- `countQueueByParams` is left out: its where-clause semantics live in the database helper. `getVacancy` takes the admin-approved count as an input.
- The `ADVANCED_SUBSCRIPTION_QUEUE_STATUS_*` values are defined outside the modelled file. They are distinct enum constructors, and any other stored integer is `Unlisted`. `addToQueue` stores the literal 0, which is read as START.
- `SubscriptionQueue.AddToQueue`: the insert does not set `last_message_id`, and what the database stores for it is outside the source. The model stores 0 and states nothing about it.
- `Php.IntVal` follows `intval` before PHP 7.1: an optional sign and the leading run of digits, so `intval("1e3")` is 1 here while PHP 7.1 and later give 1000. `RequestHash.Prepare`, `RequestHash.GenerateHash`, `SubscriptionQueue.GetVacancy`, `SubscriptionRules.ProfileCompleted`, `SubscriptionRules.IsAllowedToDoRequest` and `CourseArchiver.OwnerMatches` inherit this.
- `SubscriptionRules.ProfileCompleted`: the SOAP call is a parameter, `None` standing for a call that throws. The `(float)` cast of `profile_completed` is modelled as `intval`, so a fractional percentage is truncated.
- `SubscriptionQueue.UpdateQueueStatus`: the returned boolean assumes that `Database::update` reports MySQL's changed-rows count, so writing the values a row already holds counts as no change. The database layer is not part of this model.
- Integer widths are not modelled: the UNSIGNED columns and `intval`'s platform limits are left out.
- `SubscriptionRules.IsAllowedToDoRequest`: the settings and the profile percentage are integers. The source's float casts of the minimum and of `profile_completed` are not modelled, so a fractional percentage is not represented.
- The SOAP profile lookup is not modelled. Its answer, or its failure as `None`, is an input.
- The credit-year start date and the session query are not modelled. The sessions taken this year, with their `cost` and `teaching_hours` fields, are an input.
- `saveLastMessage`, `sendMailMessage`, `sendMail`, `isSessionOpen`, `getSessionDetails`, `listAllSessions`, `getLastMessageId` and `renderTemplateString` are not modelled. They are mail, template and read-only session plumbing.
- The URL builders, install/uninstall and hook management are left out.
- `listAllStudentsInQueueBySession`: the session's extra fields and the `ORDER BY q.status DESC, u.lastname` ordering are not modelled. The students part is a map keyed by user id.
- `getStatusMessage` and the rejection messages are language keys. Translation is left out.
- `RequestHash.LooseEquals`: covers equal strings and two numeric strings of value zero only. Two numeric strings with equal non-zero values, which PHP also calls equal, are not modelled (see the next line).
- `RequestHash.CheckHashAsWritten`: PHP's loose `==` between two strings is modelled only for equal strings and for two numeric strings that both denote zero. Numeric strings follow PHP's grammar without trailing white space, which PHP 8 also accepts. Two numeric strings with equal non-zero values also compare equal in PHP, compared as doubles. Examples are a 40-digit all-decimal digest against another spelling of the same double, or a `<digits>e<digits>` digest. Those matches are not modelled, so the check as written accepts more hashes than this member states.
- `RequestHash.ZeroNumericOf`: only the grammar-to-zero direction is proved. That the predicate accepts nothing else is its definition.
- sha1 is a function parameter about which nothing is assumed.
- Strings are sequences of characters. Byte encodings are not modelled.
- Course.class.php is not part of this model, so a course is reduced to its code, path, backup path and resource names.

## Findings

| source | as written | input that shows it | evidently intended | confidence | as-written member | corrected member |
|---|---|---|---|---|---|---|
| plugin/advanced_subscription/src/AdvancedSubscriptionPlugin.php:1117 | `checkHash` compares the generated sha1 hex digest and the link's hash with loose `==`. | A request whose generated digest has the form `0e` followed by 38 decimal digits, checked with hash `"0"` (or any other numeric zero, such as `"-0"`, `".0"`, `"0e1"`). Both sides are numeric strings of value zero, so `==` is true. | Strict comparison (`===`): only the request's own hash passes. | medium; not executed | RequestHash.CheckHashAsWritten, RequestHash.MagicHashAccepted | RequestHash.CheckHash |
