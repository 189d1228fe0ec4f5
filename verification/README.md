# Project Consensus: a verified model of its core

Project Consensus is a student community site. Its Django back end and Next.js front end serve course reviews, review replies, forum posts and forum comments. This project models the deterministic logic of both halves in Dafny and proves properties about it.

**Back end.**
- **Accounts.** The e-mail verification and registration flow. It runs over a cache of expiring entries with an explicit clock, and the random code is a parameter. Also modelled: sign-in and the current-user view, the author payload with its username fallback, and the request serializers' field rules.
- **Courses and forum.** The closed choice sets, defaults, orderings and delete cascades of the models. The serializers' payloads, including nested `term`, `rating` and `attributes` and the optional `replyToUser`. The list endpoints' query filters.

**Front end.**
- **Utilities.** Term ordering and rating clamps; the two language normalisers; relative-time bucketing; HTML tag stripping and truncation; cookie lookup; the image-upload endpoint and its storage path.
- **In-memory stores.** The sample posts, comments, reviews and review replies.
- **Component logic, lifted out as pure functions.** The voting reducer, avatar initials, delete permissions, the comment list's sorting and collapsing, the tag manager, the filter bar, the user menu, the search box, the login and registration forms, and the settings page.

The modules are listed in the order of the program:

- `Wrappers`, `Text`, `Seqs`, `Decimal` are shared helpers. `Text` covers ASCII case and whitespace, trimming, split/join and words. `Seqs` covers filters, subsequences and a stable sort. `Decimal` covers decimal text and zero padding.
- `Accounts` and `Verification` model `accounts/`. `Courses` models `courses/`. `Forum` models `forum/`. `Queries` holds the shared `?param=` filter, and `Keys` the conversion of a query value into an integer or UUID key that Django applies before it filters.
- `CourseUtils`, `Locale`, `TimeUtils`, `HtmlUtils` and `Cookies` model `src/lib/`.
- `Store`, `PostStore`, `CommentStore` and `ReviewStore` model `src/data/`.
- `CardRules`, `CourseCards`, `CommentViews`, `TagManager`, `FilterBar`, `UserMenu` and `SearchBar` model `src/components/`.
- `AuthForms`, `Settings` and `Upload` model the login components, the register and settings pages, and the upload route.

## Model

| member | source | states |
|---|---|---|
| Accounts.AuthorPayload | project-consensus-backend/accounts/models.py:32-45 | the id is the decimal text of the user's primary key; the name is the display name, or the username when the display name is blank; the avatar is absent exactly when the avatar URL is blank |
| Accounts.AuthorIdInjective | project-consensus-backend/accounts/models.py:42 | two payloads with the same id belong to the same user |
| Accounts.PayloadNameIsProfileText | project-consensus-backend/accounts/models.py:29-30 | the payload's name is always the profile's textual form |
| Accounts.AuthorPayloadFor | project-consensus-backend/courses/serializers.py:14-19 | a user with a profile gets the profile's payload; one without gets id, username and no avatar |
| Accounts.FallbackIsBlankProfile | project-consensus-backend/courses/serializers.py:14-19 | the no-profile fallback is exactly the payload a blank profile would give |
| Accounts.DisplayName | project-consensus-backend/accounts/views.py:119 | the sign-in name is the non-blank display name, else the username |
| Accounts.DisplayNameIsAuthorName | project-consensus-backend/accounts/views.py:119 | the name that sign-in reports always equals the author payload's name |
| Accounts.UserKeyTruthy | project-consensus-backend/courses/serializers.py:122-125 | every key of a consistent directory is truthy, because keys start at 1, so the truthiness test on a stored target never hides a user |
| Accounts.CharField | project-consensus-backend/accounts/serializers.py:52-55 | a missing field is "required"; a text made only of Python whitespace (U+001C to U+001F and the Unicode spaces included) is "blank"; a stripped text over the limit is "too long"; otherwise the text stripped as by Python's `str.strip()` is accepted |
| Accounts.CharFieldIgnoresSurrounding | project-consensus-backend/accounts/serializers.py:52-55 | any Python whitespace before and after a value leaves the field's answer unchanged |
| Accounts.SeparatorBlank | project-consensus-backend/accounts/serializers.py:52-55 | the file separator U+001C alone is "blank", since Python strips it |
| Accounts.EmailField | project-consensus-backend/accounts/serializers.py:36-39 | accepted exactly when the character field accepts the text and the trimmed text is an address in the sense of Django's e-mail validator: at most 320 characters, a dot-atom before the last `@`, and after it `localhost` or a hostname of at least two labels whose last label has 2 to 63 characters |
| Accounts.EmailShapeChars | project-consensus-backend/accounts/serializers.py:39 | an accepted address contains exactly one `@` and no Python whitespace character |
| Accounts.EmailIgnoresSurrounding | project-consensus-backend/accounts/serializers.py:39 | whitespace around an address, U+001C included, is stripped before validation, so it changes nothing |
| Accounts.TwoAtsRefused | project-consensus-backend/accounts/serializers.py:39 | any text with two `@` characters is refused |
| Accounts.SpaceRefused | project-consensus-backend/accounts/serializers.py:39 | any text with a Python whitespace character is refused by the validator |
| Accounts.FailedFields | project-consensus-backend/accounts/serializers.py:52-55 | for distinct field names, a name is reported exactly when its field's rule failed; the report is empty exactly when every field passed |
| Accounts.ValidateSendCode | project-consensus-backend/accounts/serializers.py:36-39 | valid exactly when the e-mail field is valid; otherwise the error names `email` alone |
| Accounts.ValidateRegister | project-consensus-backend/accounts/serializers.py:52-55 | valid exactly when all four fields pass their rules (nickname at most 100 and code at most 16 characters); a failure names exactly the fields whose rule fails |
| Verification.Get | project-consensus-backend/accounts/views.py:37 | a cache read sees a value exactly while its entry has not expired |
| Verification.SetThenGet | project-consensus-backend/accounts/views.py:43-45 | a value written with a timeout reads back until exactly `now + timeout`, and not after |
| Verification.SetOther | project-consensus-backend/accounts/views.py:43-45 | writing one key leaves every other key's reads unchanged |
| Verification.KeysDisjoint | project-consensus-backend/accounts/views.py:37-44 | a code key never collides with a throttle key |
| Verification.KeysInjective | project-consensus-backend/accounts/views.py:37-44 | different addresses have different code keys and different throttle keys |
| Verification.IssueCode | project-consensus-backend/accounts/views.py:41 | the code is six decimal digits whose value is the random draw, leading zeros kept |
| Verification.IssueCodeInjective | project-consensus-backend/accounts/views.py:41 | different draws give different codes |
| Verification.SendVerificationCode | project-consensus-backend/accounts/views.py:24-50 | an invalid body gives 400 and no change; a live throttle flag gives 429 and no change; otherwise the answer is 200 without the code, the code and flag of the lower-cased address are stored for their lifetimes, and nothing else changes |
| Verification.SendIgnoresCase | project-consensus-backend/accounts/views.py:33 | requests whose addresses differ only in case behave identically |
| Verification.ThrottledWithinInterval | project-consensus-backend/accounts/views.py:36-39 | a second request for the same address within the interval gets 429 and changes nothing |
| Verification.ThrottleLapses | project-consensus-backend/accounts/views.py:36-45 | once the interval has passed, a new request for the address succeeds |
| Verification.Register | project-consensus-backend/accounts/views.py:53-91 | checks run in order: body, then code, then duplicate address; each failure leaves the state unchanged; a username clash gives 500 with no change; 201 happens exactly when every check passes, and then the body is `{"success": true, "user": {id, email, name}}` with the new key, the user and profile are added under that key, the code is deleted, and nothing else in the cache changes; any other answer leaves the state unchanged |
| Verification.SendThenRegister | project-consensus-backend/accounts/views.py:41-78 | the code just sent, entered before it expires for an unregistered address, creates the account |
| Verification.CodeExpires | project-consensus-backend/accounts/views.py:69-72 | after the code's lifetime the register request is refused with the bad-code answer |
| Verification.CodeSingleUse | project-consensus-backend/accounts/views.py:81 | after a successful registration, the same address's code is refused |
| Verification.Login | project-consensus-backend/accounts/views.py:101-125 | a failed authentication gives 400; a successful one gives 200 with `{"success": true, "user": …}` holding the user's id, e-mail and author name |
| Verification.Me | project-consensus-backend/accounts/views.py:134-143 | no session gives 401; a session gives the flat user payload, which is exactly the `user` that sign-in wraps |
| Verification.RegisterThenLogin | project-consensus-backend/accounts/views.py:85-125 | the new account signs in under its nickname, and the sign-in body equals the registration body, wrapper included |
| Verification.SendPreservesValid | project-consensus-backend/accounts/views.py:24-50 | sending a code keeps the user directory consistent |
| Verification.AddUserValid | project-consensus-backend/accounts/models.py:21-23 | a new user with a fresh username and a display name of at most 100 characters keeps the directory consistent |
| Verification.RegisterPreservesValid | project-consensus-backend/accounts/views.py:53-91 | registration keeps the user directory consistent: one profile per user, unique usernames, keys below the next key |
| Queries.NarrowKey | project-consensus-backend/courses/views.py:28-33 | without the parameter the base list is unchanged; with it, a value that does not convert is a server error, and otherwise exactly the base items whose key is the converted value remain, each as many times as in the base and in base order |
| Queries.NarrowKeyCommutes | project-consensus-backend/forum/views.py:40-48 | two key filters give the same answer, rows or server error, in either order |
| Queries.FilterFilterCommute | project-consensus-backend/forum/views.py:44-48 | two filters commute |
| Keys.ParseInt | project-consensus-backend/courses/views.py:31-32 | a parsed number comes from non-blank trimmed text, and a negative one from text that starts with `-` |
| Keys.IntRoundTrip | project-consensus-backend/courses/views.py:31-32 | the decimal text of a key parses back to the key |
| Keys.LeadingZerosParse | project-consensus-backend/courses/views.py:31-32 | leading zeros do not change the parsed number |
| Keys.IntKey | project-consensus-backend/courses/views.py:31-32 | a key text exists exactly when the value parses, and it is the decimal text of the parsed number |
| Keys.IntKeySelects | project-consensus-backend/courses/views.py:31-32 | a query value selects the row keyed `k` exactly when it parses to `k` |
| Keys.ParseUuid | project-consensus-backend/forum/views.py:44-47 | a parsed UUID is below 2^128 |
| Keys.HexText | project-consensus-backend/forum/views.py:44-47 | exactly `width` plain hexadecimal digits, whose value is the number when it fits |
| Keys.UuidKey | project-consensus-backend/forum/views.py:44-47 | a key text exists exactly when the value parses as a UUID, and it is that UUID's canonical text |
| Keys.UuidRoundTrip | project-consensus-backend/forum/models.py:23 | the canonical text of a UUID parses back to it |
| Keys.CanonicalUuidInjective | project-consensus-backend/forum/models.py:23 | different UUIDs have different canonical texts |
| Keys.UuidKeySelects | project-consensus-backend/forum/views.py:44-47 | a query value selects the row keyed by UUID `v` exactly when it parses to `v` |
| Keys.UuidKeyUnhyphenated | project-consensus-backend/forum/views.py:44-47 | the 32 digits without hyphens select the same key as the canonical text |
| Courses.ParseChoice | project-consensus-backend/courses/models.py:21-47 | a stored text is found back as a listed choice with that text, or no choice has it |
| Courses.ParseChoiceText | project-consensus-backend/courses/models.py:21-47 | when the texts are distinct, parsing a choice's text gives that choice back |
| Courses.ChoicesClosed | project-consensus-backend/courses/models.py:21-47 | there are 3 semesters, 5 difficulties, 4 workloads, 3 gradings and 3 gains; their texts are distinct and fit the 10-character columns |
| Courses.SemesterParse | project-consensus-backend/courses/models.py:21-24 | every semester is listed and its stored text reads back as itself |
| Courses.SemesterParseOpt | project-consensus-backend/courses/models.py:97-98 | an optional semester reads back from its text |
| Courses.DifficultyParse | project-consensus-backend/courses/models.py:26-31 | every difficulty is listed and reads back from its text |
| Courses.WorkloadParse | project-consensus-backend/courses/models.py:33-37 | every workload is listed and reads back from its text |
| Courses.GradingParse | project-consensus-backend/courses/models.py:39-42 | every grading is listed and reads back from its text |
| Courses.GainParse | project-consensus-backend/courses/models.py:44-47 | every gain is listed and reads back from its text |
| Courses.NewCourse | project-consensus-backend/courses/models.py:56-66 | a new course has rating 0 with no reviews, the default attributes, no teachers, a blank department and the current update time |
| Courses.NewReview | project-consensus-backend/courses/models.py:79-105 | a new review has rating 0, the default attributes, no likes or replies, no term, and equal creation and update times |
| Courses.NewReply | project-consensus-backend/courses/models.py:108-123 | a new reply has no likes and no target, is not deleted, and is stamped now |
| Courses.AddCourse | project-consensus-backend/courses/models.py:49 | insertion fails exactly when the subject id is taken; otherwise the course is appended and subject ids stay unique |
| Courses.ForgetSameOrigin | project-consensus-backend/courses/models.py:117 | clearing the reply target loses no author or review |
| Courses.ForgetAll | project-consensus-backend/courses/models.py:117 | every reply is kept in place with its target cleared when it was the deleted user |
| Courses.DeleteUser | project-consensus-backend/courses/models.py:82-117 | deleting a user keeps the courses; removes exactly the user's reviews; keeps exactly the replies not by the user and not under one of the user's reviews; clears the reply targets that named the user |
| Courses.DeleteUserReplies | project-consensus-backend/courses/models.py:112-117 | the kept replies, with targets cleared, are exactly the surviving replies |
| Courses.AttributesOut | project-consensus-backend/courses/serializers.py:51-57 | each attribute text parses back to the attribute it came from |
| Courses.AttributesOutInjective | project-consensus-backend/courses/serializers.py:90-96 | equal attribute payloads come from equal attributes |
| Courses.DefaultAttributesText | project-consensus-backend/courses/models.py:59-62 | the defaults are sent as medium, moderate, balanced and decent |
| Courses.CourseOut | project-consensus-backend/courses/serializers.py:45-57 | `term` carries the year and a semester text that parses back; `rating` carries score and count; the other columns are copied |
| Courses.CourseOutInjective | project-consensus-backend/courses/serializers.py:45-57 | equal course payloads come from equal courses |
| Courses.ReviewOut | project-consensus-backend/courses/serializers.py:60-96 | the author becomes its payload; a blank semester stays blank and any other parses back; the other fields are copied |
| Courses.ReplyOut | project-consensus-backend/courses/serializers.py:99-125 | `replyToUser` is absent exactly when the stored target key is unset or 0, and otherwise is the target's author payload |
| Courses.ReplyOutKeys | project-consensus-backend/courses/serializers.py:115-125 | in a consistent directory the target is shown exactly when one is stored, and the payload ids read back as the stored author and target keys |
| Courses.ReviewsNewestFirst | project-consensus-backend/courses/models.py:103 | reviews are listed as a permutation in non-increasing creation time |
| Courses.RepliesOldestFirst | project-consensus-backend/courses/models.py:121 | replies are listed as a permutation in non-decreasing creation time |
| Courses.ReviewList | project-consensus-backend/courses/views.py:28-33 | without `?course=`, all reviews; with it, a server error exactly when the value is not an integer, else exactly the reviews whose course key is the parsed number |
| Courses.ReviewListPadded | project-consensus-backend/courses/views.py:28-33 | a course key written with leading zeros selects the same reviews |
| Courses.ReplyList | project-consensus-backend/courses/views.py:47-52 | without `?review=`, all replies; with it, a server error exactly when the value is not a UUID, else exactly the replies under the review with that UUID |
| Courses.ReplyListUnhyphenated | project-consensus-backend/courses/views.py:47-52 | a review's UUID without hyphens selects the same replies as its canonical text |
| Forum.NewPost | project-consensus-backend/forum/models.py:23-33 | a new post has no tags, an empty language and no likes, and is stamped now |
| Forum.NewComment | project-consensus-backend/forum/models.py:52-63 | a new comment is not deleted, has no likes or target, and is a main comment exactly when it has no parent |
| Forum.Doomed | project-consensus-backend/forum/models.py:54 | the ids removed with a comment contain it, contain every reply to a removed comment, and are all existing ids |
| Forum.DoomedLeast | project-consensus-backend/forum/models.py:54 | no smaller reply-closed set contains the deleted ids |
| Forum.Without | project-consensus-backend/forum/models.py:53-54 | exactly the comments whose ids are not removed stay, in order |
| Forum.DeleteComment | project-consensus-backend/forum/models.py:54 | the comment and all its replies, transitively, disappear; every other comment stays, in order |
| Forum.DeletePost | project-consensus-backend/forum/models.py:53 | the post and every comment on it disappear; the rest stays |
| Forum.ForgetAll | project-consensus-backend/forum/models.py:57 | every comment is kept with its target cleared when it named the deleted user |
| Forum.DeleteUser | project-consensus-backend/forum/models.py:26-57 | exactly the posts by others stay, in order; the comments left are exactly the stored comments outside the cascade of the user's comments and posts, one for one, each with the user cleared as target; none is by the user or addressed to them |
| Forum.DeleteUserUninvolved | project-consensus-backend/forum/models.py:26-57 | deleting a user who owns nothing and is nobody's target changes nothing |
| Forum.PostOut | project-consensus-backend/forum/serializers.py:37-69 | the payload the serializer intends: the author becomes its payload; `likes` is the like count; `comments` counts every comment on the post; `isLiked` is false |
| Forum.PostOutAuthor | project-consensus-backend/forum/serializers.py:61 | in a consistent directory the author payload reads back as the stored author key and carries the author's sign-in name |
| Forum.ReadNested | project-consensus-backend/accounts/serializers.py:21-23 | the nested read succeeds exactly when every required field names an attribute; a failure names the first required field that does not |
| Forum.PostOutAsWritten | project-consensus-backend/forum/serializers.py:37 | the serializer as written fails exactly when a required Author field is not an attribute of a post, and otherwise gives the intended payload |
| Forum.EveryPostFails | project-consensus-backend/forum/serializers.py:37 | every post fails on the missing `name` attribute |
| Forum.CommentCountSplits | project-consensus-backend/forum/serializers.py:65-66 | the post's comment count is its main comments plus its replies |
| Forum.CommentOut | project-consensus-backend/forum/serializers.py:72-105 | the author becomes its payload; `replyToUser` is absent exactly when the stored target key is unset or 0; `parentId` is the parent link |
| Forum.CommentOutKeys | project-consensus-backend/forum/serializers.py:95-105 | in a consistent directory the target is shown exactly when one is stored, and the payload ids read back as the stored author and target keys |
| Forum.PostsNewestFirst | project-consensus-backend/forum/models.py:33 | posts are listed as a permutation, newest first |
| Forum.CommentsOldestFirst | project-consensus-backend/forum/models.py:63 | comments are listed as a permutation, oldest first |
| Forum.CommentList | project-consensus-backend/forum/views.py:40-48 | a server error exactly when a given `postId` or `parentId` is not a UUID; otherwise exactly the comments of that post and under that parent, AND-combined, in order; with neither, all comments |
| Forum.CommentListOrderFree | project-consensus-backend/forum/views.py:44-48 | applying the two filters in the other order gives the same answer |
| Forum.CommentListUnhyphenated | project-consensus-backend/forum/views.py:44-45 | a post's UUID without hyphens selects the same comments as its canonical text |
| CourseUtils.Clamp | project-consensus-frontend/src/lib/course-utils.ts:10-12 | the result lies in the bounds when they are ordered, and is the value itself when already inside |
| CourseUtils.ClampIdempotent | project-consensus-frontend/src/lib/course-utils.ts:10-12 | clamping twice equals clamping once |
| CourseUtils.ClampMonotone | project-consensus-frontend/src/lib/course-utils.ts:10-12 | clamping preserves order |
| CourseUtils.ValidateRating | project-consensus-frontend/src/lib/course-utils.ts:54-60 | a missing or non-numeric rating gives 0; otherwise the rating clamped into 0..10 |
| CourseUtils.ValidateRatingLaws | project-consensus-frontend/src/lib/course-utils.ts:54-60 | a validated rating validates to itself, and validation keeps the order of ratings |
| CourseUtils.StarFill | project-consensus-frontend/src/components/CoursesPreviewCard.tsx:96-102 | each star's fill lies in 0..100; stars below half the score are full, and those at or beyond it are empty |
| CourseUtils.StarFillMonotone | project-consensus-frontend/src/components/CoursesPreviewCard.tsx:96-102 | a higher score never fills a star less |
| CourseUtils.SemesterOrder | project-consensus-frontend/src/lib/course-utils.ts:66-67 | the within-year rank lies in 1..3, and it is the only thing that orders terms of the same year |
| CourseUtils.AgeOrder | project-consensus-frontend/src/lib/course-utils.ts:65-68 | the numeric age agrees with the term order, and equal ages mean equal terms |
| CourseUtils.NoOlderAntisymmetric | project-consensus-frontend/src/lib/course-utils.ts:65-68 | the term order is antisymmetric |
| CourseUtils.SortTerms | project-consensus-frontend/src/lib/course-utils.ts:65-68 | the result is a permutation ordered by year descending, then fall, summer, spring |
| CourseUtils.NewestFirstUnique | project-consensus-frontend/src/lib/course-utils.ts:65-68 | two newest-first permutations of the same terms are equal |
| CourseUtils.SortTermsUnique | project-consensus-frontend/src/lib/course-utils.ts:65-68 | any newest-first permutation of the input is the sorted list |
| CourseUtils.LatestTerm | project-consensus-frontend/src/components/CoursesPreviewCard.tsx:73-79 | nothing for an empty list; otherwise a listed term no other term is newer than |
| CourseUtils.LatestTermUnique | project-consensus-frontend/src/components/CoursesPreviewCard.tsx:73-79 | a listed term no other is newer than is the one returned |
| CourseUtils.FormatTerm | project-consensus-frontend/src/lib/course-utils.ts:17-26 | the year's decimal text, one space, then the semester label |
| CourseUtils.FormatTermLanguageFree | project-consensus-frontend/src/lib/course-utils.ts:23-25 | the text does not depend on the language |
| CourseUtils.ShownTerm | project-consensus-frontend/src/components/CoursesPreviewCard.tsx:159-161 | the latest listed term when there are terms, else the course's single term |
| CourseUtils.ShownTermText | project-consensus-frontend/src/components/CoursesPreviewCard.tsx:159-161 | the shown term's text, followed by "..." whenever the list is non-empty |
| CourseUtils.OrderedTerms | project-consensus-frontend/src/components/CoursesDetailedCard.tsx:280-283 | the listed terms, or the single term when none are listed, sorted newest first |
| CourseUtils.CardsAgree | project-consensus-frontend/src/components/CoursesDetailedCard.tsx:280-283 | the detailed card's first term is the preview card's shown term |
| Locale.NormalizeLanguage | project-consensus-frontend/src/lib/locale.ts:10-35 | no language exactly for a missing or empty input |
| Locale.NormalizeIsClassify | project-consensus-frontend/src/lib/locale.ts:10-35 | for non-empty input, the result equals a reference classification of the trimmed, lower-cased tag: Chinese with a traditional marker, other Chinese, or English |
| Locale.NormalizeCode | project-consensus-frontend/src/lib/locale.ts:16-18 | each supported code normalises to itself |
| Locale.NormalizeIdempotent | project-consensus-frontend/src/lib/locale.ts:16-18 | normalising a result again gives it back |
| Locale.NormalizeBlank | project-consensus-frontend/src/lib/locale.ts:34 | a blank input falls back to English |
| Locale.ConvertDetectedAsWritten | project-consensus-frontend/src/lib/i18n.ts:61-78 | table keys map as listed; inherited object member names return the inherited member; anything else gives zh-CN |
| Locale.ConvertLeaksInherited | project-consensus-frontend/src/lib/i18n.ts:77 | "toString" yields an inherited member, not a language |
| Locale.ConvertDetectedLanguage | project-consensus-frontend/src/lib/i18n.ts:64-77 | table keys map as listed and every other input gives zh-CN, so the result is always a supported language |
| Locale.ConvertAgreesOffInherited | project-consensus-frontend/src/lib/i18n.ts:77 | off the inherited names, the corrected lookup and the code as written agree |
| Locale.NormalisersAgreeOnTable | project-consensus-frontend/src/lib/i18n.ts:64-75 | on every table key the two normalisers agree |
| Locale.TableKeyFacts | project-consensus-frontend/src/lib/i18n.ts:64-75 | every table key is trimmed and classified as the table says |
| Locale.NormalisersDisagree | project-consensus-frontend/src/lib/i18n.ts:77 | "zh-TW" goes to zh-HK in one normaliser and to zh-CN in the other |
| TimeUtils.Bucket | project-consensus-frontend/src/lib/time-utils.ts:20-50 | invalid exactly for empty or unparsable text; "just now" exactly under an hour (future included); hours 1..23 with the difference inside that hour; days 1..6; absolute from a week on |
| TimeUtils.DaysAreWholeDays | project-consensus-frontend/src/lib/time-utils.ts:40-42 | the day count is the number of whole days elapsed |
| TimeUtils.BucketMonotone | project-consensus-frontend/src/lib/time-utils.ts:34-49 | a later clock never gives a fresher bucket |
| TimeUtils.Render | project-consensus-frontend/src/lib/time-utils.ts:22-49 | invalid dates show a non-empty text; counts show as decimal, a space, then the unit label |
| TimeUtils.FormatRelativeTime | project-consensus-frontend/src/lib/time-utils.ts:20-61 | empty input shows a non-empty text; dates a week old or more show the absolute date |
| TimeUtils.CountReadsBack | project-consensus-frontend/src/lib/time-utils.ts:38-39 | the text starts with digits that read back as the hour count, then a space |
| HtmlUtils.RemoveTags | project-consensus-frontend/src/lib/html-utils.ts:35 | the result has no `<` before a later `>`, and keeps only characters of the input |
| HtmlUtils.RemoveTagsFixpoint | project-consensus-frontend/src/lib/html-utils.ts:35 | text without tags is left unchanged |
| HtmlUtils.RemoveTagsIdempotent | project-consensus-frontend/src/lib/html-utils.ts:35 | removing tags twice equals removing them once |
| HtmlUtils.RemoveTagsNoOpen | project-consensus-frontend/src/lib/html-utils.ts:35 | text without `<` is left unchanged |
| HtmlUtils.TrimNoTag | project-consensus-frontend/src/lib/html-utils.ts:35 | trimming keeps text tag-free |
| HtmlUtils.StripHtmlTags | project-consensus-frontend/src/lib/html-utils.ts:30-36 | the plain text is tag-free, trimmed, and drawn from the decoded input |
| HtmlUtils.SliceTo | project-consensus-frontend/src/lib/html-utils.ts:47 | `slice(0, end)`: a prefix of the end's length, a negative end counting from the back |
| HtmlUtils.TruncateHtmlContent | project-consensus-frontend/src/lib/html-utils.ts:44-48 | short plain text is returned unchanged; longer text becomes its first `maxLength` characters plus "..." |
| HtmlUtils.TruncateFits | project-consensus-frontend/src/lib/html-utils.ts:44-48 | the result fits within the limit exactly when the plain text already did: the ellipsis always takes longer text past it |
| Cookies.EntryName | project-consensus-frontend/src/lib/utils.ts:13 | the text before the first `=`, or the whole entry |
| Cookies.EntryValue | project-consensus-frontend/src/lib/utils.ts:13-16 | everything after the first `=` (so it may contain `=`), or empty when there is none |
| Cookies.Entries | project-consensus-frontend/src/lib/utils.ts:11 | an empty cookie has no entries; otherwise the entries joined with "; " give the cookie back |
| Cookies.GetCookie | project-consensus-frontend/src/lib/utils.ts:9-23 | nothing without a document or with an empty cookie; otherwise the decoded value of the first entry with exactly that name, or nothing when none has it |
| Cookies.EntryRoundTrip | project-consensus-frontend/src/lib/utils.ts:13-16 | a `name=value` entry reads back its name and value |
| Cookies.SplitJoin | project-consensus-frontend/src/lib/utils.ts:11 | splitting entries joined by "; " gives the entries back |
| Cookies.GetCookieRoundTrip | project-consensus-frontend/src/lib/utils.ts:9-23 | a rendered cookie list gives the decoded value of the first pair with the name, or nothing |
| Store.Find | project-consensus-frontend/src/data/samplePosts.ts:298-300 | the first matching item, or nothing exactly when none matches |
| Store.UpdateFirst | project-consensus-frontend/src/data/samplePosts.ts:236-253 | only the first match is replaced, the length kept; no match changes nothing |
| Store.RemoveFirst | project-consensus-frontend/src/data/samplePosts.ts:283-293 | exactly the first match is removed, or the list is unchanged and false is reported |
| Store.RemoveFirstOthers | project-consensus-frontend/src/data/samplePosts.ts:283-293 | non-matching items keep their order, and one match fewer remains |
| Store.Append | project-consensus-frontend/src/data/samplePosts.ts:258-262 | the old list followed by the new item |
| Store.AppendThenFind | project-consensus-frontend/src/data/samplePosts.ts:258-300 | a newly added, unique item is found again |
| Store.Select | project-consensus-frontend/src/data/sampleReviews.ts:164-166 | exactly the matching items, each as often as in the input, in input order |
| Store.PartitionMultiset | project-consensus-frontend/src/data/sampleComments.ts:292-298 | a predicate and its negation split the input as a multiset |
| Store.SortedMembers | project-consensus-frontend/src/data/samplePosts.ts:199-205 | sorting keeps exactly the same members |
| PostStore.ToggleLike | project-consensus-frontend/src/data/samplePosts.ts:241-247 | flips the liked mark; likes go one up or one down, never below zero; nothing else changes |
| PostStore.ToggleTwice | project-consensus-frontend/src/data/samplePosts.ts:241-247 | toggling twice restores the post exactly when it was not liked with zero likes |
| PostStore.ToggleLikeById | project-consensus-frontend/src/data/samplePosts.ts:236-253 | an unknown id changes nothing; otherwise only the first post with the id is toggled; non-negative likes stay non-negative |
| PostStore.AddPost | project-consensus-frontend/src/data/samplePosts.ts:258-262 | the post is appended and returned |
| PostStore.Assign | project-consensus-frontend/src/data/samplePosts.ts:272 | each supplied field overwrites, each omitted field is kept |
| PostStore.AssignLaws | project-consensus-frontend/src/data/samplePosts.ts:272 | an empty patch changes nothing; two patches equal their combination; a patch applied twice equals once |
| PostStore.UpdatePost | project-consensus-frontend/src/data/samplePosts.ts:267-278 | an unknown id changes nothing; otherwise only the first post with the id is patched |
| PostStore.DeletePost | project-consensus-frontend/src/data/samplePosts.ts:283-293 | removes exactly the first post with the id and reports true, or reports false with the list unchanged |
| PostStore.DeletePostOthers | project-consensus-frontend/src/data/samplePosts.ts:283-293 | other posts keep their order, and one post with the id fewer remains |
| PostStore.GetPostById | project-consensus-frontend/src/data/samplePosts.ts:298-300 | a listed post with the id, or nothing exactly when none has it |
| PostStore.AddThenGet | project-consensus-frontend/src/data/samplePosts.ts:258-300 | a post added under a fresh id is found by it |
| PostStore.MergeWithSeed | project-consensus-frontend/src/data/samplePosts.ts:199-205 | a permutation of the stored posts plus the seed posts with unstored ids, newest first |
| PostStore.MergeStable | project-consensus-frontend/src/data/samplePosts.ts:199-205 | among posts of equal time, the stored posts come first and both groups keep their order |
| PostStore.MergeKeepsIds | project-consensus-frontend/src/data/samplePosts.ts:199-205 | every stored post is kept, and the ids are those of both lists |
| PostStore.LoadPosts | project-consensus-frontend/src/data/samplePosts.ts:194-212 | without saved posts the seed; otherwise the merge |
| CommentStore.CommentsOfPost | project-consensus-frontend/src/data/sampleComments.ts:277-279 | exactly the comments of the post, in order |
| CommentStore.SeparateComments | project-consensus-frontend/src/data/sampleComments.ts:285-305 | main and sub comments together are a permutation of the input, each side oldest first |
| CommentStore.SeparateStable | project-consensus-frontend/src/data/sampleComments.ts:301-304 | comments with equal times keep their input order |
| CommentStore.SeparateMembers | project-consensus-frontend/src/data/sampleComments.ts:292-298 | a comment is on the main side exactly when it has no parent |
| CommentStore.SubCommentsOf | project-consensus-frontend/src/data/sampleComments.ts:310-314 | exactly the direct replies to the main comment, in order |
| CommentStore.SeparatedOfPost | project-consensus-frontend/src/data/sampleComments.ts:319-325 | the post's main and sub comments, together as many as the post's comments |
| CommentStore.ToggleLike | project-consensus-frontend/src/data/sampleComments.ts:331-336 | flips the liked mark and moves likes by one with no floor; nothing else changes |
| CommentStore.ToggleTwice | project-consensus-frontend/src/data/sampleComments.ts:335-336 | toggling twice always restores the comment |
| CommentStore.ToggleBelowZero | project-consensus-frontend/src/data/sampleComments.ts:336 | unliking a liked comment with zero likes gives -1 |
| CommentStore.ToggleLikeById | project-consensus-frontend/src/data/sampleComments.ts:330-339 | an unknown id changes nothing; otherwise only the first comment with the id is toggled |
| CommentStore.ToggleByIdTwice | project-consensus-frontend/src/data/sampleComments.ts:330-339 | toggling the same id twice restores the list |
| CommentStore.DeleteComment | project-consensus-frontend/src/data/sampleComments.ts:344-350 | removes exactly the first comment with the id and reports true, or reports false with the list unchanged |
| CommentStore.DeleteCommentOthers | project-consensus-frontend/src/data/sampleComments.ts:344-350 | other comments keep their order, and one comment with the id fewer remains |
| CommentStore.AddComment | project-consensus-frontend/src/data/sampleComments.ts:355-358 | the comment is appended and returned |
| ReviewStore.ReviewsBySubjectId | project-consensus-frontend/src/data/sampleReviews.ts:164-166 | exactly the subject's reviews, each as often as listed, in order; none for an unknown subject |
| ReviewStore.ReviewById | project-consensus-frontend/src/data/sampleReviews.ts:171-173 | a listed review with the id, or nothing exactly when none has it |
| ReviewStore.RepliesByReviewId | project-consensus-frontend/src/data/sampleReviewReplies.ts:66-68 | exactly the review's replies, each as often as listed, in order; none for an unknown review |
| ReviewStore.RepliesAfterAppend | project-consensus-frontend/src/data/sampleReviewReplies.ts:66-68 | appending a reply extends its own review's list by it and leaves every other list unchanged |
| CardRules.Initials | project-consensus-frontend/src/components/CoursesDetailedCard.tsx:144-153 | a blank name gives "?"; otherwise one or two upper-cased initials, the second exactly when there is a second word |
| CardRules.InitialsTrimmed | project-consensus-frontend/src/components/CourseReviewCard.tsx:39-48 | initials depend only on the trimmed name |
| CardRules.ReplyInitials | project-consensus-frontend/src/components/CourseReviewReplyCard.tsx:46-52 | an empty name gives "?"; any other uses the avatar rule |
| CardRules.InitialsAgree | project-consensus-frontend/src/components/CourseReviewReplyCard.tsx:46-52 | the reply card's rule and the avatars' rule agree on every name |
| CardRules.CanDeleteRelation | project-consensus-frontend/src/components/ForumPostCommentCard.tsx:96 | the trimmed permission implies the plain one, and the two differ only on blank ids |
| CardRules.BlankIdWitness | project-consensus-frontend/src/components/ForumPostComment.tsx:62 | a single-space id may delete under the plain rule but not under the trimmed one |
| CardRules.DeleteRequest | project-consensus-frontend/src/components/CourseReviewReplyCard.tsx:65-73 | the item's id is sent exactly when a handler exists and no delete is in progress |
| CourseCards.VotingReducer | project-consensus-frontend/src/components/CoursesDetailedCard.tsx:48-100 | re-toggling the own vote withdraws it, floored at 0; another vote adds one and withdraws the old one; reset installs the counts with no vote; other actions change nothing; non-negative counts stay non-negative |
| CourseCards.ReducerKeepsConsistent | project-consensus-frontend/src/components/CoursesDetailedCard.tsx:48-100 | non-negative counts that include the user's own vote stay so |
| CourseCards.ToggleKeepsTotal | project-consensus-frontend/src/components/CoursesDetailedCard.tsx:53-87 | the total changes only by the change in the user's own vote |
| CourseCards.VoteThenUnvote | project-consensus-frontend/src/components/CoursesDetailedCard.tsx:53-87 | from no vote, voting twice the same way restores the state |
| CourseCards.SwitchBack | project-consensus-frontend/src/components/CoursesDetailedCard.tsx:64-87 | switching to the other vote and back restores the state |
| CourseCards.InconsistentVoteLost | project-consensus-frontend/src/components/CoursesDetailedCard.tsx:58-61 | a vote recorded against a zero count is lost for good after unvoting |
| CourseCards.EditedMonotone | project-consensus-frontend/src/components/CourseReviewCard.tsx:140-152 | an edit stays an edit at a later update time; an update within a minute is never one |
| CourseCards.RepliesLabelFor | project-consensus-frontend/src/components/CourseReviewCard.tsx:266-269 | the count form exactly for a non-zero count, showing that count |
| CourseCards.ReviewCard | project-consensus-frontend/src/components/CourseReviewCard.tsx:168-171 | nothing exactly without an id or an author name; otherwise initials, the edited mark when updated more than 60 s after creation, and the replies label |
| CourseCards.BlankAuthorShown | project-consensus-frontend/src/components/CourseReviewCard.tsx:168-171 | a blank but non-empty author name passes the guard and shows "?" |
| CourseCards.ReviewCardFrame | project-consensus-frontend/src/components/CourseReviewCard.tsx:168-171 | the card depends only on the id, the author's name, the two times and the reply count |
| CourseCards.ReplyCard | project-consensus-frontend/src/components/CourseReviewReplyCard.tsx:41-60 | a deleted reply shows only the placeholder; otherwise initials, with deletion offered exactly to its signed-in author |
| CourseCards.SameAuthorSameInitials | project-consensus-frontend/src/components/CourseReviewReplyCard.tsx:46-53 | a review card and a reply card whose authors share a name show the same initials |
| CourseCards.ReplyDeleteTargetsReply | project-consensus-frontend/src/components/CourseReviewReplyCard.tsx:65-73 | the delete handler passes the reply's own id, and nothing while deleting |
| CommentViews.SortByLikes | project-consensus-frontend/src/components/ForumPostCommentList.tsx:39-41 | a permutation of the main comments, most liked first |
| CommentViews.SortByLikesStable | project-consensus-frontend/src/components/ForumPostCommentList.tsx:39-41 | comments with equal likes keep their order |
| CommentViews.SortByLikesSorted | project-consensus-frontend/src/components/ForumPostCommentList.tsx:39-41 | an already-sorted list is unchanged |
| CommentViews.Displayed | project-consensus-frontend/src/components/ForumPostCommentList.tsx:64 | a prefix of the sorted mains: all when expanded, the first three when collapsed |
| CommentViews.CommentList | project-consensus-frontend/src/components/ForumPostCommentList.tsx:34-65 | the total counts all the post's comments; the shown mains are the post's, most liked first; shown plus hidden equals the mains; nothing is hidden when expanded |
| CommentViews.ShownOutrankHidden | project-consensus-frontend/src/components/ForumPostCommentList.tsx:64-65 | every shown main has at least as many likes as every hidden one |
| CommentViews.ExpandedShowsAll | project-consensus-frontend/src/components/ForumPostCommentList.tsx:64 | expanded, every main comment of the post is shown |
| CommentViews.ToggleExpansion | project-consensus-frontend/src/components/ForumPostCommentList.tsx:52-62 | flips membership of exactly one id |
| CommentViews.ToggleExpansionTwice | project-consensus-frontend/src/components/ForumPostCommentList.tsx:52-62 | toggling twice restores the set |
| CommentViews.ToggleExpansionCommutes | project-consensus-frontend/src/components/ForumPostCommentList.tsx:52-62 | toggles of two ids commute |
| CommentViews.LikesBadge | project-consensus-frontend/src/components/ForumPostComment.tsx:143 | the count is shown exactly when positive |
| CommentViews.CommentCard | project-consensus-frontend/src/components/ForumPostCommentCard.tsx:96-107 | a deleted comment shows only the placeholder; deletion is offered only to the author with a non-empty id; the plain rule allows exactly that, and the strict rule also refuses blank ids |
| CommentViews.CardsAgreeOffBlankIds | project-consensus-frontend/src/components/ForumPostComment.tsx:62 | off blank author ids the two comment cards show the same |
| TagManager.AddTag | project-consensus-frontend/src/components/TagManager.tsx:25-42 | blank input changes nothing; a present tag only clears the input; a full list changes nothing; otherwise the trimmed tag is appended and the input cleared |
| TagManager.AddKeepsInvariant | project-consensus-frontend/src/components/TagManager.tsx:30-41 | tags stay duplicate-free and within the maximum |
| TagManager.AddedTagsAreTrimmed | project-consensus-frontend/src/components/TagManager.tsx:26-27 | an added tag is non-empty and trimmed |
| TagManager.AddTwice | project-consensus-frontend/src/components/TagManager.tsx:30-33 | adding the same text again changes no tags |
| TagManager.RemoveTag | project-consensus-frontend/src/components/TagManager.tsx:44-46 | every copy of the tag goes, the rest stays in order |
| TagManager.RemoveCount | project-consensus-frontend/src/components/TagManager.tsx:44-46 | on duplicate-free tags, one fewer exactly when the tag was present |
| TagManager.AddThenRemove | project-consensus-frontend/src/components/TagManager.tsx:40-46 | removing a just-added tag restores the tags |
| FilterBar.InitialIsOffered | project-consensus-frontend/src/components/CoursesFilterBar.tsx:32-80 | the default category "all" and sort "rating" are the first options offered |
| FilterBar.ToggleSelection | project-consensus-frontend/src/components/CoursesFilterBar.tsx:82-84 | the value's membership flips, others' stay; present values are removed entirely, absent ones appended |
| FilterBar.ToggleAbsentTwice | project-consensus-frontend/src/components/CoursesFilterBar.tsx:82-84 | toggling an absent value twice restores the list |
| FilterBar.TogglePresentTwice | project-consensus-frontend/src/components/CoursesFilterBar.tsx:82-84 | toggling a present value twice moves it to the end, once |
| FilterBar.ToggleWithinOptions | project-consensus-frontend/src/components/CoursesFilterBar.tsx:43-84 | toggling an offered value keeps selections among the options |
| FilterBar.Apply | project-consensus-frontend/src/components/CoursesFilterBar.tsx:86-88 | a payload exactly when there is a callback, carrying every field of the state |
| FilterBar.ApplyInjective | project-consensus-frontend/src/components/CoursesFilterBar.tsx:86-88 | equal payloads come from equal states |
| UserMenu.LocalPart | project-consensus-frontend/src/components/UserMenu.tsx:46 | the text before the first `@`, or the whole address without one |
| UserMenu.DisplayName | project-consensus-frontend/src/components/UserMenu.tsx:46 | the name when non-empty, else the address's local part |
| UserMenu.AvatarText | project-consensus-frontend/src/components/UserMenu.tsx:49-51 | the upper-cased first character of the name, else of the address, else nothing |
| UserMenu.Menu | project-consensus-frontend/src/components/UserMenu.tsx:24-26 | no menu exactly without a user |
| UserMenu.AvatarFromDisplayName | project-consensus-frontend/src/components/UserMenu.tsx:46-51 | for every user, the avatar is the upper-cased first character of the display name; with an empty display name it is `@` when there is an address and nothing otherwise |
| SearchBar.FilterItems | project-consensus-frontend/src/components/SearchBar.tsx:13-15 | exactly the items containing the term case-insensitively, in order; all items for an empty term |
| SearchBar.Search | project-consensus-frontend/src/components/SearchBar.tsx:37-47 | no list for an empty term; otherwise the matches, or "No results found" exactly when none match |
| SearchBar.CaseInsensitive | project-consensus-frontend/src/components/SearchBar.tsx:13-15 | terms differing only in case give the same results |
| AuthForms.FirstText | project-consensus-frontend/src/components/LoginModal.tsx:74-79 | the first non-empty of message and detail, else the fallback |
| AuthForms.CheckLogin | project-consensus-frontend/src/components/LoginModal.tsx:109-119 | missing fields first, then a missing `@`; otherwise no error |
| AuthForms.ModalLogin | project-consensus-frontend/src/components/LoginModal.tsx:54-146 | a failed check sends nothing; sign-in happens exactly on an OK reply reporting success with a user; other replies fail with message, detail or "Login failed" |
| AuthForms.ComponentLogin | project-consensus-frontend/src/components/LoginComponent.tsx:56-137 | a failed check sends nothing; sign-in happens exactly on an OK reply reporting success with a user; other replies fail with the message or "Login failed" |
| AuthForms.ChecksSendNothing | project-consensus-frontend/src/components/LoginComponent.tsx:96-106 | when a check fails the outcome does not depend on any reply |
| AuthForms.FormsAgreeOnSignIn | project-consensus-frontend/src/components/LoginComponent.tsx:111-130 | for a parsed or thrown reply, both forms sign in the same user in the same cases |
| AuthForms.DetailOnlyInModal | project-consensus-frontend/src/components/LoginModal.tsx:74-79 | for a failure carrying only a detail, the modal shows the detail and the component shows "Login failed" |
| AuthForms.AfterLogin | project-consensus-frontend/src/components/LoginComponent.tsx:49-53 | success resets the form; failure keeps the inputs and shows the error |
| AuthForms.PolyuCaseInsensitive | project-consensus-frontend/src/app/register/page.tsx:22 | the PolyU domain check ignores case |
| AuthForms.PolyuNotEmpty | project-consensus-frontend/src/app/register/page.tsx:22 | an accepted address is at least as long as the domain |
| AuthForms.SendCode | project-consensus-frontend/src/app/register/page.tsx:49-79 | an empty or non-PolyU address fails without a request; an OK reply enables the code field and starts the 60-second countdown; anything else shows an error and changes neither |
| AuthForms.Tick | project-consensus-frontend/src/app/register/page.tsx:41-47 | the countdown drops by one and stops at zero |
| AuthForms.TicksFloor | project-consensus-frontend/src/app/register/page.tsx:41-47 | after n seconds the countdown shows `max(c - n, 0)` |
| AuthForms.ResendAfterSixty | project-consensus-frontend/src/app/register/page.tsx:195 | resend is disabled for 59 seconds after a send whatever else is going on, and at 60 it is disabled exactly while a send or a registration is in flight |
| AuthForms.CheckRegister | project-consensus-frontend/src/app/register/page.tsx:86-97 | missing fields first, then the PolyU domain, then the repeated password; otherwise no error |
| AuthForms.SubmitRegister | project-consensus-frontend/src/app/register/page.tsx:81-134 | a failed check sends nothing; registration happens exactly on an OK reply reporting success; other replies fail with message, detail or "Register failed" |
| AuthForms.NonPolyuNeverRegisters | project-consensus-frontend/src/app/register/page.tsx:22-97 | a non-PolyU address can neither request a code nor register |
| Settings.View | project-consensus-frontend/src/app/settings/page.tsx:77-88 | the forms are shown exactly to a signed-in user |
| Settings.ViewMatchesMenu | project-consensus-frontend/src/app/settings/page.tsx:77-88 | the forms are shown exactly when signed in and the user menu shows a user |
| Settings.ChangePassword | project-consensus-frontend/src/app/settings/page.tsx:106-134 | an empty or unconfirmed new password is refused with the fields kept; otherwise all three fields are cleared |
| Settings.ChangeThenResubmit | project-consensus-frontend/src/app/settings/page.tsx:110-127 | resubmitting a cleared form is refused |
| Settings.Merge | project-consensus-frontend/src/app/settings/page.tsx:69-70 | each supplied setting overrides, each omitted one is kept |
| Settings.MergeLaws | project-consensus-frontend/src/app/settings/page.tsx:69-70 | a full patch replaces; an empty patch keeps; merging the same patch twice equals once |
| Settings.LoadPrivacy | project-consensus-frontend/src/app/settings/page.tsx:48-73 | no or unparsable saved settings give the defaults; parsed ones override the defaults key by key |
| Settings.SaveThenLoad | project-consensus-frontend/src/app/settings/page.tsx:64-73 | settings saved in full load back unchanged |
| Upload.Post | project-consensus-frontend/src/app/api/upload/image/route.ts:46-120 | a body that is not a form gives 500 with the server-error message, and only it does; then a missing or empty `upload` field, a value that is not an image file of an accepted type, and a file over 5 MiB are refused with 400 in that order; exactly the other files get 200 with the placeholder address |
| Upload.SizeLimitInclusive | project-consensus-frontend/src/app/api/upload/image/route.ts:70-75 | exactly 5 MiB passes; one byte more fails |
| Upload.TypeCheckedFirst | project-consensus-frontend/src/app/api/upload/image/route.ts:62-67 | a wrong type is refused whatever the size |
| Upload.MimeExt | project-consensus-frontend/src/app/api/upload/image/route.ts:6-11 | a mapped extension exists exactly for the four accepted types |
| Upload.FallbackExt | project-consensus-frontend/src/app/api/upload/image/route.ts:12-15 | "bin" without a dot; otherwise the lower-cased text after the last dot |
| Upload.Ext | project-consensus-frontend/src/app/api/upload/image/route.ts:16 | the type's extension for accepted types, else the name's; always lower case and dot-free |
| Upload.DateDir | project-consensus-frontend/src/app/api/upload/image/route.ts:18-21 | the year, a slash, the two-digit month, a slash, the two-digit day, each reading back as its number |
| Upload.GenerateRandomFilePath | project-consensus-frontend/src/app/api/upload/image/route.ts:4-32 | the directory of the 1-based date, and the file name `uuid.ext` |
| Upload.FallbackOfDotted | project-consensus-frontend/src/app/api/upload/image/route.ts:12-15 | the extension of `pre.ext` is `ext` |
| Upload.ExtReadBack | project-consensus-frontend/src/app/api/upload/image/route.ts:4-32 | reading the extension back from a generated name gives the extension chosen |
| Upload.AcceptedExt | project-consensus-frontend/src/app/api/upload/image/route.ts:4-16 | the storage name of every accepted upload takes its extension from the type table, never from the original name |

## Left out

- Django and DRF machinery is not modelled: the ORM, sessions, CSRF, password hashing and `authenticate`. The outcome of authentication is an input of `Verification.Login`.
- `LoginSerializer` is imported by `accounts/views.py` but not defined in `accounts/serializers.py`. The shape of the login request is therefore not modelled.
- `EmailVerification`, imported by `accounts/serializers.py`, is not defined in the accounts models and is not part of this model.
- The concurrent-registration race is not modelled, because the model is sequential. `transaction.atomic` appears only as the 500 answer with no change on a username clash.
- `secrets.randbelow` is not modelled; the random code is a parameter below 999999. Logging and e-mail delivery are left out.
- Accounts.EmailField: follows the ASCII rules of Django's `EmailValidator` (Django 4.2). It does not model quoted local parts, IP-address literals in brackets, internationalised (IDN) domains or non-ASCII letters. Such addresses are refused where Django may accept them, because they need Unicode tables and IDNA encoding.
- Accounts.CharField: does not model DRF's validators that refuse the NUL character and lone surrogates, because strings here are sequences of Unicode scalars.
- Courses.ReviewList: the integer conversion covers ASCII digits and ASCII whitespace only. Python's `int` also accepts other Unicode digits and spaces, and it refuses texts of more than 4300 digits. A number outside the database's integer range is treated as matching nothing, while the database may raise an error.
- Courses.ReplyList: the UUID conversion covers ASCII hexadecimal digits and ASCII whitespace only, because Unicode whitespace tables are not modelled.
- Forum.CommentList: the UUID conversion of `postId` and `parentId` has the same ASCII-only limit as Courses.ReplyList.
- `AuthorSerializer` input validation and read-only fields (`id`, `createdAt`, `updatedAt`) are not modelled, because only the read paths are modelled.
- Migrations, URL routing and app configuration are left out as wiring.
- Reading or writing `fetch`, `localStorage`, `JSON.parse` and `Date` parsing are parameters of the members that use them. Timestamps are integers in milliseconds, and an unparsable date is `None`.
- `he.decode` and `decodeURIComponent` are parameters, as foreign libraries.
- `Intl` and `toLocaleDateString` date formatting, and the i18next `t` labels, are parameters.
- `crypto.randomUUID`, `Date.now` and `Math.random` are parameters: the identifier and the clock.
- Not modelled as UI plumbing: clipboard, timers, React rendering and effects, navigation, token storage, the CSRF fetch in the login modal, and saving the profile.
- Case mapping, and the whitespace of JavaScript's `trim` and `\s`, are ASCII-only. JavaScript's Unicode whitespace and the Unicode case tables of both languages are not modelled. Python's `str.strip()` is modelled with its full whitespace set.
- Ratings, and the values `Clamp` and `StarFill` work on, are Dafny `real`s; a rating that is not a number (`NaN`) is `None`. Floating-point rounding is not modelled. Counts, likes, reply and vote totals, tag limits and the countdown are integers: fractional, infinite or `NaN` values of those are not modelled.
- Date sorting with unparsable dates (a `NaN` comparator) is not modelled, because creation times are integers.
- `sanitizeHtml` (DOMPurify) is left out as a foreign library.
- The float UI math (rating slider, column weights, percentages) is left out.
- HtmlUtils.SliceTo: lengths and slicing count Unicode scalars, not the UTF-16 code units of JavaScript strings, so a text with characters outside the Basic Multilingual Plane is cut at a different place.
- HtmlUtils.TruncateHtmlContent: compares the text length with the limit in Unicode scalars, not UTF-16 code units, as above.
- CardRules.Initials: takes the first Unicode scalar of a word, not the first UTF-16 code unit, so a name starting with an astral character keeps its whole first character where the source shows half of a surrogate pair.
- UserMenu.AvatarText: takes the first Unicode scalar, not the first UTF-16 code unit returned by `charAt(0)`, as above.
- PostStore.ToggleLikeById: posts are values without identity. The source changes the stored object in place, and `addPost` stores the caller's object, so an object held in two slots, or by the caller, sees the change everywhere; the model changes only the first matching slot.
- PostStore.UpdatePost: `Object.assign` on the stored object reaches every alias of that object, as above; aliasing is not modelled.
- CommentStore.ToggleLikeById: comments are values without identity, so the in-place change of an object that `addComment` stored twice, or that a caller still holds, is not modelled.
- Store.UpdateFirst: replaces one slot's value; object identity and aliasing, which the callers above rely on in the source, are not modelled.
- PostStore.Assign: a patch field is either absent or a value. `Object.assign` also copies a key that is present with the value `undefined`, which overwrites the field; that case is not modelled.
- Upload.Ext: does not model the object-prototype lookup of `mimeToExt[mimeType]` for inherited member names such as "toString", because only the four mapped types are meant to hit the table.
- `generateRandomFilePath` is modelled as a standalone function, because its call in `POST` is commented out.
- Forum comments have only a parent link. No thread-root link or per-user like table is modelled, because the code has none.
- The remaining pure markup pages, context providers, type-only files and the course sample data are left out.

## Findings

| source | as written | input that shows it | evidently intended | confidence | as-written member | corrected member |
|---|---|---|---|---|---|---|
| project-consensus-frontend/src/lib/i18n.ts:77 | `languageMap[lng] \|\| 'zh-CN'` looks `lng` up on a plain object, so inherited member names return the inherited function instead of a language | `lng = "toString"` returns `Object.prototype.toString`, not a language code | every input outside the ten-entry table falls back to zh-CN, so the result is always a supported language | not executed | Locale.ConvertDetectedAsWritten, Locale.ConvertLeaksInherited | Locale.ConvertDetectedLanguage, Locale.ConvertAgreesOffInherited |
| project-consensus-backend/forum/serializers.py:37 | `author = AuthorSerializer(source="*")` makes DRF read `id`, `name` and `avatar` off the post itself before `to_representation` replaces `author`; a post has no `name`, which the nested serializer requires | any post, in a list or detail request: the read raises `AttributeError` and the request fails with 500 | the post is shown with its author's payload, as `to_representation` builds it | not executed | Forum.PostOutAsWritten, Forum.EveryPostFails | Forum.PostOut, Forum.PostOutAuthor |
