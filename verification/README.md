# CTF training platform: the decision logic, in Dafny

This project models the pure decision logic of a browser-based capture-the-flag training
platform and proves properties of it. Users answer quiz questions, earn points and unlock
achievements. Administrators add and delete questions. A sandbox launcher starts throw-away
containers. Two deliberately vulnerable practice servers exist: a cookie-stealing attacker
server and an XSS-prone shop.

Database rows, the question bank (`data/quizData.json`), uploaded files and network
interfaces are plain values: maps, sequences, records and `Option`s. Every handler is a
pure function from its inputs to its reply and the data it would write back. The modules
follow the source files:

| module | file | what it covers |
|---|---|---|
| `Wrappers` | — | `Option` |
| `JsText` | — | the JavaScript string behaviour used throughout: `trim`, `length` and `substring(0, n)` in UTF-16 code units, `toLowerCase`, `includes`, `startsWith`, one-character `split`/`join`, `parseInt`, decimal rendering, JSON field truthiness |
| `FileNames` | `routes/admin.js`, `routes/quiz.js` | `sanitizeFilename`, `path.extname`, the upload allow-list |
| `QuizStore` | `data/quizData.json` | the question bank as `category → qid → question` |
| `NetInterfaces` | `routes/quiz.js`, `attack_server/server.js`, `xss/server.js` | choosing the machine's own address (the same code exists in three places; it is defined once) |
| `Auth` | `routes/auth.js` | `sanitizeInput`, the validators, registration and login |
| `Admin` | `routes/admin.js` | `/addQuiz` and `/deleteQuiz` |
| `Quiz` | `routes/quiz.js` | rewriting localhost URLs, `/checkAnswer`, the file download |
| `Achievements` | `routes/achievements.js` | `updateAchievementProgress`, `checkAchievements`, `/list` |
| `LegacyServer` | `server.js` | the first single-file server: `requireLogin`, `/checkAnswer`, `/getScore` |
| `MyPage` | `public/js/mypage.js` | the study-time split and the texts shown |
| `Sandbox` | `server-sad.js` | instance ids, socket paths, `/start-sad` |
| `AttackServer` | `attack_server/server.js` | the log writer, the dashboard reader, `/steal`, `/logs/clear`, `/redirect` |
| `Shop` | `xss/server.js` | search, the product page, posting a review |
| `AchievementView` | `public/js/achievements.js` | grouping, category labels, card decisions |

Randomness (`randomBytes`), the clock (`new Date()`), bcrypt and the `existsSync`
probe are parameters. `checkCoordinates` and JSON encoding and decoding are parameters too.

`server-sad.js` has two entry points, `/start-sad` and the socket handler. The model covers
the id, the socket path, recovering the id from the path, the two failure replies, the
success reply and the container stop it schedules 30 minutes after a launch.

## Model

| member | source | states |
|---|---|---|
| FileNames.SanitizeFilename | routes/admin.js:8-15 | the sanitised name uses only `[A-Za-z0-9._-]`, contains no "..", does not start with '.', and has at most 255 characters (for these ASCII names, 255 code units) |
| FileNames.ReplaceForeign | routes/admin.js:11 | the result uses only `[A-Za-z0-9._-]`, leaves a name made of those characters unchanged, and has one character per UTF-16 code unit of the input |
| FileNames.AstralCharBecomesTwoUnderscores | routes/admin.js:11 | an emoji, one character outside the Basic Multilingual Plane, is two code units and becomes two '_': "😀.txt" gives "__.txt" |
| FileNames.RemoveDotPairs | routes/admin.js:12 | removing ".." pairs left to right leaves no ".." pair; it never lengthens the name and introduces no new characters |
| FileNames.SanitizeFixpoint | routes/admin.js:8-15 | sanitising leaves a name unchanged exactly when the name already has the safe shape (both directions) |
| FileNames.SanitizeIdempotent | routes/admin.js:8-15 | sanitising a sanitised name changes nothing |
| FileNames.ExtName | routes/admin.js:27 | the extension is empty or a dot followed by dot-free text |
| FileNames.IsValidFile | routes/admin.js:26-29 | an accepted name has an extension of a dot and three or four more characters |
| FileNames.ValidFileBySuffix | routes/admin.js:22-29 | a file is accepted exactly when its last path component is longer than an allowed extension and ends with it, ignoring case |
| QuizStore.Put | routes/admin.js:164-203 | storing a question makes it findable under its keys, creates the category if needed, and changes no other entry |
| QuizStore.Remove | routes/admin.js:237-238 | deleting removes exactly that entry; the categories stay and every other entry is unchanged |
| JsText.Length | routes/auth.js:67 | `length` counts UTF-16 code units: at least the number of characters and at most twice it |
| JsText.LengthAppend | routes/auth.js:67 | the code-unit length of a concatenation is the sum of the lengths |
| JsText.CutUnits | routes/auth.js:57 | `substring(0, n)`: a prefix of the text of at most `n` code units; the whole text when it fits; otherwise the next character would not fit |
| Auth.SanitizeInput | routes/auth.js:55-58 | a non-string gives ""; a string gives its trimmed text cut to `maxLength` UTF-16 code units, and the whole trimmed text when it fits; the result is never longer than `maxLength` code units |
| Auth.SanitizeIsSlice | routes/auth.js:55-58 | the sanitised text is the piece of the input that begins right after its leading white space |
| Auth.ValidateUserId | routes/auth.js:60-63 | accepts exactly the strings of 3 to 20 characters from `[A-Za-z0-9_]` |
| Auth.ValidateUsername | routes/auth.js:65-70 | accepts exactly the names of 3 to 50 UTF-16 code units with none of `< > ' "`; the empty name is rejected |
| Auth.AstralCharCountsTwice | routes/auth.js:67 | "a😀" is two characters but three code units long, so it is a valid name |
| Auth.IsPassword | routes/auth.js:72-75 | a password passes only when it is truthy; a string passes exactly when it has at least 8 UTF-16 code units; another value passes exactly when it is truthy and its `length` property is at least 8 |
| Auth.AstralPasswordIsLongEnough | routes/auth.js:74 | a password of four emoji is eight code units long and passes |
| Auth.Register | routes/auth.js:78-115 | checks the sanitised id, then the name, then the password (lengths in UTF-16 code units), and replies with the first failure's message. A non-string password that passes the check makes the hashing reject, and there is no reply. A taken id is refused. Otherwise exactly one account is added, with score 0 and role 'user' |
| Auth.RegisteredAccountsAreValid | routes/auth.js:82-105 | every account registration adds has a valid id and name; the existing accounts are untouched |
| Auth.Login | routes/auth.js:118-165 | login succeeds exactly for a valid id of an existing account whose hash matches the non-empty string password, when the query succeeds and a session exists. The role is the stored one or 'user'. A failing query gives "ログインに失敗しました" exactly when the id and password pass the first check. A missing session gives the session-error reply. A truthy non-string password gets no reply |
| Auth.RegisteredAccountLogsIn | routes/auth.js:78-165 | an account that registration creates logs in with the password it was registered with, with role 'user' and the registered name |
| Auth.LoginFailureIsUniform | routes/auth.js:125-152 | removing the account, or replacing it by one the password does not match, gives the same reply as a malformed id |
| Admin.DeleteQuiz | routes/admin.js:215-243 | missing keys give the first 400 reply and keys that sanitising would alter give the second; an existing entry is removed with nothing else changed; otherwise 404 |
| Admin.DeleteAcceptsSafeNames | routes/admin.js:222-228 | given truthy keys, the delete passes validation exactly when both keys are strings of the safe-name shape |
| Admin.HintItems | routes/admin.js:120-121 | a non-empty string hint is split at commas into pieces that join back to it |
| Admin.NonBlank | routes/admin.js:184 | keeps exactly the hints that are not blank, each as many times as it occurs, and never adds one |
| Admin.NonBlankAppend | routes/admin.js:184 | filtering a concatenation is the concatenation of the filtered parts, so the kept hints keep their order |
| Admin.PayloadOfForm | routes/admin.js:119-134 | the form path passes category, qid, title, desc, answer, answerType, coordinateTolerance and explanation through unchanged. The point is `parseInt(point)`, or 0 when that is NaN or the field is missing. The hints are the items trimmed, with the empty ones dropped, in order |
| Admin.FilesOf | routes/admin.js:188-195 | the files are the sanitised names of the new uploads, else the existing question's files, else none |
| Admin.AddRejection | routes/admin.js:89-148 | an add passes the checks exactly when there is no upload error, every upload passes the double check, the payload parses, and every required field is present |
| Admin.StoredUploadsPass | routes/admin.js:94-97 | an upload that storage named by sanitising and whose type is allowed always passes the double check |
| Admin.BuildQuestion | routes/admin.js:167-200 | the question holds trimmed answer, title and description. `answerType` is kept only when present and not "flag". A tolerance is kept only with "coordinates". Hints are kept only when non-blank, an explanation only when non-blank. There is never a `categoryId` |
| Admin.AddQuiz | routes/admin.js:137-203 | (as written) rejects exactly when a check fails; otherwise the question is stored under the raw, unsanitised keys and nothing else changes |
| Admin.AddQuizKeepsRawCategory | routes/admin.js:137-164 | a category with leading white space is filed under a key that differs from its sanitised form |
| Admin.Sanitised | routes/admin.js:151-155 | the sanitised keys and texts respect their limits of 50, 50, 200, 5000 and 500 UTF-16 code units |
| Admin.AddQuizSanitised | routes/admin.js:151-203 | (corrected) the question is filed under the sanitised keys, its stored texts respect their limits, and nothing else changes |
| NetInterfaces.Select | routes/quiz.js:60-73 | picks exactly the addresses of non-internal IPv4 interfaces that do (or do not) start with "192.168." |
| NetInterfaces.SelectAppend | routes/quiz.js:60-73 | selection keeps the interfaces' order |
| NetInterfaces.LocalIPAddresses | attack_server/server.js:317-339 | the preferred addresses when there are any, else the other eligible ones; only eligible addresses appear (the shop's copy, xss/server.js lines 122-144, is the same) |
| NetInterfaces.ServerHost | routes/quiz.js:49-78 | the host is the SERVER_HOST setting, else the first local address, else "localhost" |
| NetInterfaces.PreferredWins | routes/quiz.js:66-77 | without a setting, any eligible "192.168." address makes the chosen host a "192.168." address |
| Quiz.ReplaceLocalhost | routes/quiz.js:81-86 | the rewrite never shortens the text when the host is at least as long as "localhost", and never lengthens it when the host is no longer; a first character other than 'h' is kept |
| Quiz.ReplacePort | routes/quiz.js:84 | "http://localhost:" followed by a port is rewritten to the host with the same port digits |
| Quiz.ReplaceWithoutPattern | routes/quiz.js:84 | text that never contains "http://localhost:" is unchanged |
| Quiz.ReplaceByLocalhostIsIdentity | routes/quiz.js:84 | rewriting to "localhost" changes nothing |
| Quiz.ExpectedAfter | routes/quiz.js:81-86 | a missing answer stays missing. A single answer becomes its rewritten text. A list keeps its length, and each item becomes its rewritten text |
| Quiz.ExpectedAfterLocalhost | routes/quiz.js:77-86 | when the host falls back to "localhost", the answer `/checkAnswer` compares with is the stored one |
| Quiz.FlagMatch | routes/quiz.js:161-168 | a flag is correct exactly when the trimmed answer equals a trimmed expected string. A TypeError (`None`) occurs exactly when the question has no answer, or when the submitted answer is not a string and the expected value is not an empty list |
| Quiz.FlagIgnoresSurroundingSpace | routes/quiz.js:165-167 | white space around a submitted flag never changes the verdict |
| Quiz.CoordMatch | routes/quiz.js:152-160 | the coordinate comparison fails with a TypeError exactly when the question has no answer |
| Quiz.Judge | routes/quiz.js:148-169 | a question without a "coordinates" answer type is judged as a flag |
| Quiz.AddScore | routes/quiz.js:187 | SQL addition: NULL on either side gives NULL, otherwise the score grows by the submitted point |
| Quiz.NoticesFor | routes/quiz.js:193-231 | a first correct answer starts the solve_count, all_categories and score checks, and category_solve exactly when the question has a categoryId, with that id |
| Quiz.CheckAnswer | routes/quiz.js:136-237 | no session gives 401 and an unknown question gives 404. Only a correct answer to an unsolved question changes anything: it adds the pair to the solved set and the point to the score. A correct answer gets the 500 reply exactly when the solved-row query fails. Correct, already-solved or the 500 reply happens exactly when the judge says correct |
| Quiz.SecondCorrectAnswerScoresNothing | routes/quiz.js:171-187 | answering the same question correctly again reports it as already solved and changes nothing |
| Quiz.PathOf | routes/quiz.js:267-268 | joining drops exactly the empty segments, keeps every other segment as many times as it occurs, and leaves a path of non-empty segments as it is |
| Quiz.PathOfAppend | routes/quiz.js:267-268 | joining a concatenation joins each part in order, so the directory stays before the file name |
| Quiz.Candidates | routes/quiz.js:262-279 | the candidate paths are the mapped beginner directory (for Easy1/Easy2), then the category directory, then the root |
| Quiz.FirstExisting | routes/quiz.js:283-296 | finds the first candidate that exists, or reports that none does |
| Quiz.ServeFile | routes/quiz.js:283-300 | serves the first existing candidate; 404 exactly when no candidate exists |
| Quiz.SanitizedIsPlain | routes/quiz.js:254-260 | a sanitised name is never ".", ".." or a name containing '/' |
| Quiz.CandidatesStayInside | routes/quiz.js:262-279 | every candidate path is made of plain segments under the files directory |
| Quiz.NeverForbidden | routes/quiz.js:285-290 | with both parameters sanitised, the 403 traversal branch can never be taken |
| Achievements.UpdateProgress | routes/achievements.js:68-116 | stored progress never decreases and is the larger of the old and incoming values. The row is unlocked exactly when it was not and now reaches its target, stamped with the current time. An existing stamp is kept. Other rows are untouched |
| Achievements.UnlockIsSticky | routes/achievements.js:79-92 | an unlocked row stays unlocked with the same time stamp, and is never reported unlocked again |
| Achievements.UpdateIdempotent | routes/achievements.js:78-110 | repeating an update leaves the table as it is and reports no second unlock |
| Achievements.ReplayIsRunningMax | routes/achievements.js:78-110 | after a sequence of updates from no row, the stored progress is the largest one reported, and the row is unlocked exactly when some report reached the target |
| Achievements.MaxReaches | routes/achievements.js:78 | the running maximum reaches the target exactly when some report did |
| Achievements.CategoryCount | routes/achievements.js:163-169 | the category count never exceeds the number of solved rows |
| Achievements.CategoryCountAppend | routes/achievements.js:163-169 | the count of a concatenation of solved lists is the sum of their counts |
| Achievements.CategoryCountOrderFree | routes/achievements.js:163-169 | the count does not depend on the order of the solved rows |
| Achievements.MissingQuestionIgnored | routes/achievements.js:402-408 | a solved row whose question is missing adds nothing to the count |
| Achievements.SolvedCategoryIds | routes/achievements.js:419-425 | collects exactly the truthy categoryIds of solved questions that exist |
| Achievements.CountPresent | routes/achievements.js:427 | the count of required categories present never exceeds the number required |
| Achievements.CountPresentFull | routes/achievements.js:426-429 | the count equals the number required exactly when every required category is present |
| Achievements.RowCategories | routes/achievements.js:199-203 | the event path's category set is exactly the category keys of the solved rows |
| Achievements.Scan | routes/achievements.js:254-265 | the streak scan never counts more days than there are rows |
| Achievements.StreakOf | routes/achievements.js:230-270 | a history without today gives 0; one with today gives at least 1 and at most the number of rows |
| Achievements.EventStreak | routes/achievements.js:230-270 | in the event path an empty history gives 1 |
| Achievements.ListStreak | routes/achievements.js:440-486 | in the list path an empty history or a failing query gives 0 |
| Achievements.RunBackUnique | routes/achievements.js:230-270 | the run of consecutive days ending at a day has only one possible length |
| Achievements.ScanIsRun | routes/achievements.js:254-265 | over a descending history the scan counts exactly the run of consecutive days ending at the expected day |
| Achievements.StreakIsRunEndingToday | routes/achievements.js:230-270 | for a descending history containing today, the streak is exactly the number of consecutive days ending today that are present |
| Achievements.EventProgress | routes/achievements.js:129-334 | for each type, when progress is recorded and what it is. solve_count: on a solve event, the solved count of `count`. category_solve: on a solve event of that category, the rows whose question carries that `categoryId`. score: exactly when the stored score reaches the target, the target of the target. all_categories: on a solve event exactly when every required category has a solved row, the number required of itself. login_streak: on a login event with a readable history, the streak of `days`. study_time: when the study total is updated and non-zero, the hours of `hours`. no_hint_solve: on a solve without a hint with a readable count, that count of `count`. Unknown types record nothing |
| Achievements.Walk | routes/achievements.js:119-340 | the loop over the definitions adds rows only for definitions of the event's type. It leaves every other row as it was, never lowers stored progress, never loses or re-dates an unlock, and returns only definitions of the event's type |
| Achievements.CheckAchievements | routes/achievements.js:119-340 | only definitions of the event's type are returned; every existing row stays, with progress never lower and unlocks never lost |
| Achievements.CheckReportsNewUnlocks | routes/achievements.js:119-340 | with distinct ids, the walk returns exactly the definitions of the event's type that were locked before it and are unlocked after it, whatever progress each one computes |
| Achievements.ListProgress | routes/achievements.js:392-531 | the recomputed figures per type. solve_count: the solved count of `count`. category_solve: the matching rows of `count`. score: the score (0 when missing) capped at the target, of the target. all_categories: the required categories present among the solved questions' `categoryId`s, of the number required, equal exactly when all are present. login_streak: the streak, 0 without history, of `days`. study_time: the hours (0 without data) of `hours`. no_hint_solve: the count (0 on failure) of `count`. Unknown types keep the stored figures or 0 of 1 |
| Achievements.ListOne | routes/achievements.js:535-553 | an achievement is shown unlocked exactly when progress reaches the target or it was unlocked; a stored unlock is kept with its date; other rows are untouched |
| Achievements.ListAll | routes/achievements.js:343-561 | every definition is listed in order; unlocks are never lost; everything shown unlocked is stored unlocked |
| LegacyServer.AsString | server.js:109 | `String(answer)` is the string itself, or "undefined" for a missing field |
| LegacyServer.CheckAnswer | server.js:100-122 | no session gives 401. An unknown question, or one whose stored answer is empty, gives "no question" and changes nothing. A correct answer (trimmed, lower-cased) adds 10 to the user's score. A correct answer from a user without a row throws inside the database callback, which ends the server process. A wrong answer reports point 0 and changes nothing |
| LegacyServer.AddPoints | server.js:111 | adding to a NULL score leaves it NULL; otherwise it adds the points |
| LegacyServer.CorrectAddsTen | server.js:110-115 | a correct answer raises a non-NULL score by exactly 10 and touches no other user |
| LegacyServer.NormalIgnoresCase | server.js:109 | the normalised form ignores ASCII case |
| LegacyServer.CheckIgnoresCase | server.js:109 | lower-casing the submitted answer never changes the reply |
| LegacyServer.GetScore | server.js:125-133 | no session gives 401; a stored row gives its score; a missing row gives success false and score 0 |
| LegacyServer.ReportedScoreIsStored | server.js:111-114 | the score a correct answer reports is the one `/getScore` returns afterwards |
| MyPage.JsRem | public/js/mypage.js:37-38 | JavaScript's remainder takes the sign of the dividend and is smaller than the divisor in size |
| MyPage.FloorDiv | public/js/mypage.js:36-38 | `Math.floor(a / d)` is the largest q with q·d ≤ a |
| MyPage.SplitStudyTime | public/js/mypage.js:36-38 | for a non-negative duration, minutes and seconds are below 60 and hours are non-negative |
| MyPage.SplitBounds | public/js/mypage.js:36-38 | the split loses only the sub-second part: h·3600000 + m·60000 + s·1000 ≤ ms < that sum + 1000 |
| MyPage.SplitOfClock | public/js/mypage.js:36-38 | splitting the duration of a clock reading gives the reading back |
| MyPage.StudyTimeText | public/js/mypage.js:40-48 | the text shows hours only when there are some, and minutes only when there are some or hours are shown; it is never empty |
| MyPage.NoStudyTimeShowsZero | public/js/mypage.js:35-48 | a missing or zero study time is shown as "0秒" |
| MyPage.LeadingNumber | public/js/mypage.js:40-47 | the text's leading number is the largest unit shown |
| MyPage.ScoreText | public/js/mypage.js:32 | the score text is the score's decimal digits (0 when there is none) followed by " 点", and reads back (with `parseInt`) as that number |
| Sandbox.Hex | server-sad.js:45 | hex encoding gives two lower-case hex digits per byte |
| Sandbox.UnhexHex | server-sad.js:45 | decoding the hex text gives the bytes back |
| Sandbox.HexUnhex | server-sad.js:45 | every even-length lower-case hex text is the encoding of its decoding |
| Sandbox.InstanceId | server-sad.js:45 | the id matches `^sad_[a-f0-9]{8}$` |
| Sandbox.InstanceIdIsBijective | server-sad.js:45 | different bytes give different ids, and every string of the id pattern is some id |
| Sandbox.WsPath | server-sad.js:76 | the socket path is "/ws/" followed by the id |
| Sandbox.IdFromNamespace | server-sad.js:16 | the id read from a namespace contains no '/' |
| Sandbox.IdFromWsPathOf | server-sad.js:14-16 | the last '/'-segment of "/ws/" + id is the id whenever the id has no '/' |
| Sandbox.IdFromWsPath | server-sad.js:14-16 | the path `/start-sad` returns matches the namespace pattern, and the socket handler recovers exactly that id from it |
| Sandbox.Launched | server-sad.js:41-61 | a container is launched exactly when the socket layer is ready |
| Sandbox.StartSad | server-sad.js:40-79 | no socket layer gives 500 without a launch; a non-zero or null exit code gives 500; otherwise the reply holds the launched id and its socket path, and the container's stop is scheduled 1800000 ms later. A stop is scheduled exactly when the launch succeeds |
| AttackServer.Body | attack_server/server.js:39 | the line is "[" + timestamp + "] " + payload, at the stated positions |
| AttackServer.WriteLog | attack_server/server.js:37-41 | writing appends the line and a newline, creating the file when it is missing |
| AttackServer.WriteLogExtendsLog | attack_server/server.js:37-41 | each write extends the log of the earlier writes by the new entry |
| AttackServer.StampEnd | attack_server/server.js:164 | the lazy stamp match ends at the first "] " |
| AttackServer.StripStamp | attack_server/server.js:164 | removing the stamp leaves a suffix of the line |
| AttackServer.StripStampOfBody | attack_server/server.js:164 | removing the stamp from a written line gives back exactly its payload |
| AttackServer.Collect | attack_server/server.js:159-169 | every record shown comes from a non-blank line whose payload decodes to it |
| AttackServer.Reverse | attack_server/server.js:170 | reversal puts the newest first |
| AttackServer.Dashboard | attack_server/server.js:155-171 | with no log file the dashboard is empty |
| AttackServer.DashboardOfLog | attack_server/server.js:155-171 | the round trip: the dashboard of a written log shows every written payload, decoded, newest first |
| AttackServer.StolenShowsFirst | attack_server/server.js:155-171 | a stolen record just written is the first thing the dashboard shows |
| AttackServer.FirstTruthy | attack_server/server.js:45-48 | `a \|\| b \|\| … \|\| fallback` gives the first truthy value, else the fallback |
| AttackServer.StealRecord | attack_server/server.js:78-81 | cookies, url, user agent and ip fall back as `cookies \|\| cookie \|\| ''`, `url \|\| referer \|\| 'unknown'`, and so on |
| AttackServer.ClearLogs | attack_server/server.js:118-125 | an existing log is emptied with success; a missing log stays missing with failure |
| AttackServer.ClearEmptiesDashboard | attack_server/server.js:118-125 | after a reset the dashboard is empty |
| AttackServer.RedirectTarget | attack_server/server.js:148-152 | the redirect goes to `to`, or to "/fake" when it is missing or empty |
| Shop.Search | xss/server.js:75-80 | search returns exactly the products whose lower-cased name or description contains the lower-cased query |
| Shop.SearchAppend | xss/server.js:77-80 | search keeps the catalogue order |
| Shop.EmptyQueryListsAll | xss/server.js:76-80 | a missing or empty query lists every product |
| Shop.FindProduct | xss/server.js:92 | finds the first product with the id; NaN finds nothing |
| Shop.ReviewsOf | xss/server.js:93 | the reviews shown are exactly those of the product id |
| Shop.ReviewsOfAppend | xss/server.js:93 | the review filter keeps the posting order |
| Shop.ProductPage | xss/server.js:90-100 | 404 exactly when no product has the id; otherwise that product with its reviews |
| Shop.Rating | xss/server.js:112 | the rating is the parsed number, or 5 when it is missing, NaN or 0 |
| Shop.PostReview | xss/server.js:103-118 | the review is appended last, numbered one past the count, with author '匿名' and comment '' as defaults; earlier reviews are unchanged |
| Shop.PostedReviewShows | xss/server.js:90-118 | a review posted to an existing product is the last one its page shows; other products' pages are unchanged |
| AchievementView.AddTo | public/js/achievements.js:28-31 | adding an entry appends it to its key's group, creating the group if new, and changes no other group |
| AchievementView.GroupAll | public/js/achievements.js:25-32 | the groups have distinct keys and hold exactly as many entries as there are achievements |
| AchievementView.GroupAllMembers | public/js/achievements.js:25-32 | each group holds exactly the entries of its key (category or "other"), in order; there is a group exactly for each key that occurs |
| AchievementView.CategoryName | public/js/achievements.js:69-84 | the 11 known keys get their labels, any other key is shown as itself |
| AchievementView.NumberOr | public/js/achievements.js:92-93 | a missing or zero number takes the default |
| AchievementView.Percent | public/js/achievements.js:94 | the percentage never exceeds 100. It is non-negative for non-negative progress and a positive target, and 100 once progress reaches the target. Below a positive target it is exactly progress / target × 100 |
| AchievementView.CardOf | public/js/achievements.js:87-231 | the badge appears exactly when unlocked and the date exactly when also stamped. The bar appears exactly when locked with a target above 1. A hidden locked card shows "❓", "???" and the hidden text; otherwise the icon, title (falling back to the id) and description are shown |
| AchievementView.HiddenCardsLookAlike | public/js/achievements.js:223-228 | a hidden locked card reveals nothing but its progress figures |

## Left out

- I/O is out of scope: the file system, SQLite, Express middleware, multer storage, EJS rendering and the DOM. Their results are inputs. A failing query is modelled where the source gives it its own reply or skip. These are the account query of `/login`, the solved-row query of `/checkAnswer`, and the login-streak, hint-count and study-time queries of `checkAchievements`. The other database errors are not modelled. Those that have a reply of their own are listed below under their member.
- Concurrency is out of scope. This covers the callback ordering in `/checkAnswer`, where the insert, the score update and the achievement checks race. It also covers the asynchronous `checkAchievements` calls, the docker processes and socket.io. The `setTimeout` auto-stop is modelled only as the stop `Sandbox.StartSad` schedules; the timer firing is not.
- bcrypt hashing and comparison are a `matches` parameter, including the dummy comparison against timing attacks. `checkCoordinates` and its floating-point arithmetic are a `near` parameter.
- Floating point: progress values are exact `real`s. The study-time division by 3600000 is exact rather than IEEE double. Millisecond figures are integers.
- Dates: login days are integer day numbers and time stamps are opaque strings. Time zones, `setHours` and `toISOString` are not modelled.
- Quiz.CheckAnswer: the insert and score-update failures (routes/quiz.js:180-190) try to send a 500 reply after the success reply has gone out; they are not modelled. A failing update also skips the solve_count, category_solve and all_categories checks, which the model always starts.
- LegacyServer.CheckAnswer: the "スコア更新失敗" reply for a failing score update (server.js:112) is not modelled.
- Auth.Register: an insert that fails for a reason other than a taken id gets the same duplicate-id reply in the source; the model gives that reply only for a taken id.
- JSON values are modelled only as far as the handlers distinguish them (`Field`): absent, a string, or some other value. For the other values the model keeps their truthiness and the number their `length` property holds, which is what the password check reads. Non-string hints, answers and answer-list items are out, and so are their TypeErrors; so are non-string query parameters, which arrive as arrays.
- Inherited object keys such as `categoryMapping["constructor"]` and `names["__proto__"]` are not modelled; these maps are exact.
- `Object.entries` puts integer-like keys first; the model takes the entries in the given order.
- JsText.Lower: `toLowerCase` is modelled for ASCII letters only. The comparisons that use it ignore only ASCII case.
- Strings are sequences of Unicode scalar values. JavaScript's `length` and `substring` are modelled in UTF-16 code units by `JsText.Length` and `JsText.CutUnits`, where a character outside the Basic Multilingual Plane counts two. No normalisation is modelled.
- Auth.SanitizeInput: when the cut at `maxLength` falls inside a surrogate pair, JavaScript keeps the lone high surrogate. A Dafny string cannot hold one, so the model stops before the pair, one code unit short. The same holds for the `Admin.Sanitised` texts. File names cannot hit this, since only ASCII remains after the replacement.
- Achievements.EventProgress: the stored score is `None` both for a missing user row and for a NULL score column. JavaScript compares a NULL score as 0, so a NULL score meets a target of 0 or less; the model does not record it.
- Achievements.EventProgress: for all_categories, the event path compares the required categories with the solved rows' own category keys. The list path compares them with the questions' `categoryId`s. The model keeps both as written (`RowCategories` and `SolvedCategoryIds`).
- Achievements.ListAll: the handler reads the stored rows once before its loop, and the model reads the table as updated so far. With distinct ids the two read the same row at every step.
- Quiz.CheckAnswer: the `point` the client submits is credited as is, as in the source.
- Quiz.ExpectedAfter: the source rewrites the whole JSON text of the question bank (routes/quiz.js:81-86). That text includes keys, titles, `categoryId` and `answerType`; the model rewrites only the answers `/checkAnswer` compares with.
- Quiz.ExpectedAfter: the replacement string is a pattern in which `$&`, `$1` and `$$` have special meanings. A host containing them is not modelled, and neither is a host containing a `"`, which breaks the `JSON.parse` of the rewritten text.
- Quiz.CoordMatch: states only when the comparison throws; the geometric comparison is the `near` parameter.
- Admin.PayloadOfForm: the form's `coordinateTolerance` arrives as a number. The `parseFloat` of the form text, and the rule that a falsy value becomes undefined, are not modelled. A non-string, non-array hint (`[req.body.hint]`) is out with the other non-string JSON values.
- Admin.BuildQuestion: the built question never carries a `categoryId`, so editing a question drops it; this is the source's behaviour.
- The event data for the `score` check (`scoreRow.score + point`) is not modelled, because no achievement type reads it.
- The admin path runs a local copy of `sanitizeInput` with a default length of 1000. Every call passes a length, so it is modelled by `Auth.SanitizeInput`.
- Static data and wiring are out: `server_new.js` and `utils/db.js`. The legacy server's own answer table (server.js:47-50) is the `answers` parameter. `quizAnswers.js` is not imported by any modelled file.
- Client scripts with no decision rules are out: the code editor, quiz page, login page, admin page, tabs, ranking and main scripts.

## Findings

| source | as written | input that shows it | evidently intended | confidence | as-written member | corrected member |
|---|---|---|---|---|---|---|
| routes/admin.js:137-203 | the handler sanitises the payload's fields (lines 151-155) after reading them into local variables (line 137), then files and builds the question from those raw locals | a JSON payload with category "  web" files the question under the key "  web"; a 600-character answer is stored whole | the sanitised (trimmed, length-capped) keys and texts are used for the stored question | not executed | Admin.AddQuiz, Admin.AddQuizKeepsRawCategory | Admin.AddQuizSanitised |
