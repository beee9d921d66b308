# Face matching, adaptive templates and name parsing of the HR logbook

This project models, in Dafny, the core of the HR logbook's face-based
visitor and administrator recognition, and the full-name parser that
its migration script uses. The model covers four pieces.

- **Visitor recognition** (`find_best_match`). A captured face vector is
  matched against every stored template. The client of the closest
  template wins, provided its distance is within the threshold. There are
  two deployments of this function:
  - the relational one, with a default threshold of 0.7;
  - the document one, with a default threshold of 0.6.

  They also differ in which stored encodings they can decode. A row that
  cannot be decoded or compared is skipped.
- **Adaptive template update** (`improve_client_embedding`). After a client
  is recognised, the new capture is folded into that client's templates. The
  decision depends on the closest template:
  - no template yet: the capture is stored as the first one;
  - an outlier: the capture is refused;
  - a near duplicate: it is blended into the closest template (80/20);
  - a distinct look: it is added while the client has room;
  - otherwise: it is blended into the closest template (70/30).
- **Administrator recognition and second factor** (`find_best_admin_match`,
  `verify_admin_pin`):
  - The admin scan accepts a stored flat vector or a list of vectors per
    admin.
  - Unlike the visitor scan, it aborts on the first stored value it cannot
    decode or compare.
  - The PIN check fails closed.
- **Full-name parsing** (`parse_full_name`). This splits `FIRST [MI.] LAST [EXT]`
  into four upper-cased parts.

Distances are modelled by their squares (`VectorMath.SqDist`). Every `<`,
`<=` and `>` test of the source on a distance `d >= 0` is exactly the
corresponding test on `d * d`, as `VectorMath.ThresholdTestsAgree` proves.
Matches therefore report the squared distance.

Files:

| file | contents |
|---|---|
| `text.dfy` | Python's whitespace set and ASCII upper-casing, shared by the name parser and the update |
| `wrappers.dfy` | `Option`, `Result` and `Fault`, the reason a call raises |
| `vector_math.dfy` | squared distance, threshold tests on squares, blends |
| `stored_format.dfy` | how an embedding is stored and decoded per backend; JSON and UTF-8 decoding as `Codec` parameters |
| `match_engine.dfy` | the shared first-closest scan and threshold gate |
| `visitor_match.dfy` | `find_best_match` for both backends |
| `admin_match.dfy` | `find_best_admin_match` and `verify_admin_pin` |
| `template_store.dfy` | the `face_embeddings` collection as a sequence of templates with handles |
| `adaptive_update.dfy` | `improve_client_embedding` |
| `full_name.dfy` | `parse_full_name`, `str.split`, `" ".join` and the examples |

## Model

| member | source | states |
|---|---|---|
| VectorMath.SqDist | models/face_embedding_model.py:72 | the distance between a stored vector and the query is never negative |
| VectorMath.SqDistSelf | models/face_embedding_model.py:72 | a vector is at distance zero from itself |
| VectorMath.SqDistSymmetric | dist/models/admin_model.py:150 | the distance does not depend on which vector is subtracted from which |
| VectorMath.ThresholdTestsAgree | models/face_embedding_model.py:85 | for a distance d >= 0, each of `d <= t`, `d < t` and `d > t` holds exactly when the matching test holds of d squared |
| VectorMath.DistanceOrderAgrees | models/face_embedding_model.py:73 | comparing two distances with `<` gives the same answer as comparing their squares |
| StoredFormat.AsVector | models/face_embedding_model.py:66-70 | a JSON value reads as a vector exactly when it is a list of numbers and booleans, and the vector holds those numbers in order, each `true` as 1.0 and each `false` as 0.0, as NumPy converts them |
| StoredFormat.BooleansReadAsNumbers | models/face_embedding_model.py:66-70 | the stored list `[true, 0.5, false]` reads as the vector `[1.0, 0.5, 0.0]` |
| StoredFormat.AsVectorToJson | models/face_embedding_model.py:7-11 | a vector stored as a JSON list reads back as the same vector |
| StoredFormat.DecodeRelational | models/face_embedding_model.py:64-70 | the relational reader parses text as JSON, decodes bytes through UTF-8 and then parses the result as JSON, uses a native value as it is, and yields nothing when UTF-8 decoding fails |
| StoredFormat.DecodeDocument | dist/models/face_embedding_model.py:54-65 | the document reader parses text as JSON, yielding nothing for text that does not parse, and uses a native value as it is; a byte blob never yields a vector |
| StoredFormat.TextDecodesLikeNative | dist/models/face_embedding_model.py:54-58 | JSON text decodes to the same vector as the list it parses to, in both readers |
| MatchEngine.FirstClosestUnique | models/face_embedding_model.py:73 | with the strict `<`, at most one position is the first closest row |
| MatchEngine.Scan | models/face_embedding_model.py:61-78 | the scan finds nothing exactly when no row is usable; otherwise it settles on the first usable row at minimal distance, with that row's owner and distance |
| MatchEngine.FindBestMatch | models/face_embedding_model.py:85-87 | a match is within the threshold and names the owner and distance of the first closest usable row; there is no match exactly when every usable row lies beyond the threshold |
| MatchEngine.BestGatesAll | models/face_embedding_model.py:85-87 | if the closest row fails the threshold, then every usable row fails it |
| MatchEngine.AtMostMonotone | models/face_embedding_model.py:85 | a smaller distance passes every threshold that a larger one passes |
| MatchEngine.ScanLoop | models/face_embedding_model.py:56-87 | the loop with `best_id` and `best_distance` returns both or neither, and agrees with `FindBestMatch` |
| MatchEngine.ExactMatch | models/face_embedding_model.py:61-87 | a query equal to a stored vector matches that row's owner at distance zero, under every non-negative threshold, unless an earlier row is also at distance zero |
| VisitorMatch.FindVisitorDefault | models/face_embedding_model.py:51-87 | under the default threshold (0.7 relational, 0.6 for the document version at dist/models/face_embedding_model.py line 38) a match lies within 0.7 or 0.6, and no match means every readable row lies beyond it |
| VisitorMatch.FindVisitor | models/face_embedding_model.py:51-87 | for either backend's reader (the document version is dist/models/face_embedding_model.py lines 38-69), a match is within the threshold and names the client of a readable row at that distance that every earlier readable row is strictly farther than, and no readable row is closer; there is no match exactly when every readable row lies beyond the threshold |
| VisitorMatch.EnrolledDecodes | models/face_embedding_model.py:7-11 | what enrolment stores decodes back to the enrolled vector, in both backends |
| VisitorMatch.EnrolledVisitorMatches | models/face_embedding_model.py:51-87 | presenting the enrolled vector matches that client at distance zero under the default threshold, unless an earlier row is also at distance zero |
| VisitorMatch.BooleanRowMatches | models/face_embedding_model.py:66-73 | a row storing `[true]` is a candidate in both readers: the query `[1.0]` matches its client at distance zero under any non-negative threshold |
| VisitorMatch.BlobOnlyRelational | dist/models/face_embedding_model.py:55-58 | a byte blob is never readable by the document reader, but it is readable by the relational one whenever it decodes to the query's JSON |
| AdminMatch.ComparableToJson | dist/models/admin_model.py:149-150 | a vector stored as a JSON list is compared as that same vector when it is as long as the query, and the call raises a shape mismatch otherwise |
| AdminMatch.ComparableAll | dist/models/admin_model.py:141-143 | a list of vectors expands to one candidate per element, in order, and fails with a shape mismatch when any element fails |
| AdminMatch.RowCandidates | dist/models/admin_model.py:124-151 | an empty value gives no candidates and an undecodable one raises; a list whose first item is a list gives one candidate per item, and any other non-empty list is one candidate; a candidate that is not a list of numbers of the query's length raises a shape mismatch; any other value gives no candidates |
| AdminMatch.FlatWrongLengthRaises | dist/models/admin_model.py:144-151 | a stored flat vector of another length than the query aborts the scan with a shape mismatch |
| AdminMatch.ListWrongLengthRaises | dist/models/admin_model.py:141-151 | a stored list of vectors of which any one has another length than the query aborts the scan with a shape mismatch |
| AdminMatch.RowsCandidates | dist/models/admin_model.py:123-153 | the rows fail exactly when some row fails; otherwise there is one candidate list per row, in cursor order |
| AdminMatch.FlattenExact | dist/models/admin_model.py:149-153 | the nested loops visit every vector each admin offers, labelled with that admin, and nothing else |
| AdminMatch.FindBestAdminMatch | dist/models/admin_model.py:114-160 | the call raises exactly when some row faults; a match is within the threshold, is offered by the named admin at that distance, and no offered vector is closer; the named admin offers the first closest vector in the order of the nested loops; there is no match exactly when every offered vector is beyond the threshold |
| AdminMatch.TieGoesToFirstAdmin | dist/models/admin_model.py:151-153 | when two admins offer the same vector, the one stored first is named |
| AdminMatch.FindBestAdminMatchDefault | dist/models/admin_model.py:114 | a match under the default threshold is within 0.6 |
| AdminMatch.StoredFormatsExpand | dist/models/admin_model.py:139-146 | a flat vector is one candidate, and a list of vectors is one candidate per vector, in order |
| AdminMatch.FillGap | dist/models/admin_model.py:150 | two constant vectors of 0.9 and 0.1 over n dimensions are 0.64 * n apart, squared |
| AdminMatch.LoneAdminRecognised | dist/models/admin_model.py:114-160 | a lone admin enrolled with three captures of e is recognised from e at distance zero |
| AdminMatch.LoneAdminRejects | dist/models/admin_model.py:158-160 | a capture beyond the threshold from a lone admin's captures gives no match |
| AdminMatch.TwoFactorScenario | dist/models/admin_model.py:114-160 | over 128 dimensions, a capture of 0.1 matches the admin enrolled with it, and a capture of 0.9 is rejected under the default threshold |
| AdminMatch.VerifyAdminPin | dist/models/admin_model.py:67-76 | the check fails when the admin, the PIN or the stored hash is missing or empty; when all are present it succeeds exactly when the hash check accepts |
| TemplateStore.Owned | dist/models/face_embedding_model.py:72-75 | a client's templates are exactly the store's templates with that owner |
| TemplateStore.Add | models/face_embedding_model.py:7-14 | an insert adds one template, with a fresh handle, at the end of the client's templates; other clients are unchanged and handles stay distinct |
| TemplateStore.SetVector | models/face_embedding_model.py:131-132 | an update by handle changes only the vector of the template holding that handle, and keeps handles distinct |
| TemplateStore.OwnedRetarget | models/face_embedding_model.py:131-132 | seen from one client, an update by handle keeps the same templates in the same order and changes only the addressed one |
| TemplateStore.SetVectorCounts | models/face_embedding_model.py:131-132 | an update by handle changes no client's template count |
| TemplateStore.OwnedHandlesDistinct | models/face_embedding_model.py:89-102 | a client's templates have distinct handles when the store's do |
| AdaptiveUpdate.Closest | models/face_embedding_model.py:116-122 | the chosen template is no farther than any other, and strictly closer than every template before it |
| AdaptiveUpdate.Classify | models/face_embedding_model.py:124-153 | the capture is refused exactly when it exceeds both the match threshold and 0.75; otherwise it merges exactly when it is within the merge threshold; otherwise it is added exactly when the client has fewer than the maximum, and merged at the limit if not |
| AdaptiveUpdate.Apply | models/face_embedding_model.py:128-153 | a refusal leaves the store alone; an add inserts the capture under the upper-cased id; the merges set the closest template to the 0.8/0.2 or 0.7/0.3 blend; handles stay distinct |
| AdaptiveUpdate.Improve | models/face_embedding_model.py:104-157 | the call raises exactly when a template's length differs from the capture's; the capture is `added_initial` exactly when the id as given owns no template; `no_action` never happens; a refusal changes nothing; handles stay distinct |
| AdaptiveUpdate.ClosestDecides | models/face_embedding_model.py:124-129 | the closest template is an outlier exactly when all are, and within the merge threshold exactly when some template is |
| AdaptiveUpdate.UpdateOwnedAt | models/face_embedding_model.py:131-132 | updating one of a client's templates by its handle changes that template alone among the client's templates |
| AdaptiveUpdate.UpdateLeavesOthers | models/face_embedding_model.py:131-132 | updating one of a client's templates by its handle leaves every other client's templates as they were |
| AdaptiveUpdate.ImproveBootstrap | models/face_embedding_model.py:104-110 | with no template, the capture is inserted under the upper-cased id; for an upper-case id it becomes the client's only template |
| AdaptiveUpdate.ImproveRejects | models/face_embedding_model.py:124-126 | the capture is refused exactly when every template is an outlier |
| AdaptiveUpdate.ImproveMergesNear | models/face_embedding_model.py:129-136 | the 80/20 merge happens exactly when no template is an outlier and some template is within the merge threshold; only the first closest template changes, to the blend, and the count stays the same |
| AdaptiveUpdate.ImproveGrows | models/face_embedding_model.py:138-144 | a new variant is added exactly when it is no outlier, nothing is within the merge threshold and the client has fewer than the maximum; it lands at the end of the upper-cased id's templates |
| AdaptiveUpdate.ImproveMergesAtLimit | models/face_embedding_model.py:146-153 | the 70/30 merge happens exactly when it is no outlier, nothing is within the merge threshold and the client is full; only the first closest template changes, and the count stays the same |
| AdaptiveUpdate.ApplyFrame | models/face_embedding_model.py:128-153 | carrying out any outcome for one client's template leaves alone every client other than that id and its upper-cased form |
| AdaptiveUpdate.ImproveFrame | models/face_embedding_model.py:104-157 | an update never touches the templates of a client other than the id and its upper-cased form |
| AdaptiveUpdate.ImproveCapacity | models/face_embedding_model.py:138-153 | a client with an upper-case id at or below the maximum stays at or below it |
| AdaptiveUpdate.ImproveAll | models/face_embedding_model.py:104-157 | a run of updates keeps handles distinct, and keeps the count of a client with an upper-case id within the maximum |
| AdaptiveUpdate.StepKeepsCapacity | models/face_embedding_model.py:138-153 | one update step, raising or not, keeps the count of a client with an upper-case id within the maximum |
| AdaptiveUpdate.BlendsStayBetween | models/face_embedding_model.py:130 | each coordinate of either blend lies between the stored value and the captured one |
| AdaptiveUpdate.BlendsFixEqual | models/face_embedding_model.py:147 | blending a capture identical to the template leaves it unchanged |
| AdaptiveUpdate.ImproveDocumentAsWritten | dist/models/face_embedding_model.py:140-169 | the document-store update as written raises exactly when the intended update raises or would merge; otherwise the store is unchanged or gains the capture |
| AdaptiveUpdate.DocumentMergeRaises | dist/models/face_embedding_model.py:146-150 | a client with one template who presents it again is merged by the intended update, but the code as written raises |
| AdaptiveUpdate.MixedCaseNeverFound | dist/models/face_embedding_model.py:72-102 | for an id that is not upper-case and owns nothing, the update reports `added_initial`, stores the capture under the upper-cased id, and the id as given still owns nothing |
| AdaptiveUpdate.MixedCaseGrowsWithoutBound | dist/models/face_embedding_model.py:6-102 | for such an id, every capture of a run adds one template to the upper-cased id, past any maximum |
| AdaptiveUpdate.MixedCaseExceedsDefaultLimit | dist/models/face_embedding_model.py:78 | four captures for "c-1" leave "C-1" with four templates, one more than the default maximum of 3 |
| AdaptiveUpdate.ImproveByKey | dist/models/face_embedding_model.py:72-102 | with the id upper-cased before the lookup as well, every client stays within the maximum and handles stay distinct |
| AdaptiveUpdate.ImproveByKeyFindsStored | dist/models/face_embedding_model.py:72-102 | with the corrected key, a second capture under any spelling of the id that upper-cases the same finds the first capture instead of being `added_initial` again |
| Text.UpperChar | scripts/migrate_full_name.py:83 | upper-casing maps each lower-case ASCII letter to the capital at the same place in the alphabet and leaves every other character as it is |
| Text.Upper | scripts/migrate_full_name.py:83 | upper-casing keeps the length and upper-cases each character |
| Text.UpperIdempotent | dist/models/face_embedding_model.py:11 | upper-casing an id twice gives the same key as upper-casing it once |
| FullName.RStripDots | scripts/migrate_full_name.py:70 | stripping trailing dots keeps a prefix that does not end in a dot, and removes only dots |
| FullName.TokenLength | scripts/migrate_full_name.py:55 | the leading run of non-space characters is maximal |
| FullName.Split | scripts/migrate_full_name.py:55 | splitting gives tokens only, and gives none exactly when the text is all whitespace |
| FullName.SplitPeels | scripts/migrate_full_name.py:55 | splitting whitespace, then a token, then text that starts with whitespace or is empty gives that token followed by the split of the rest: the tokens are the maximal non-whitespace runs, in order |
| FullName.TakeExtension | scripts/migrate_full_name.py:69-72 | an extension is taken exactly when the last remaining token, upper-cased and stripped of dots, is listed; it then removes exactly that token |
| FullName.TakeInitial | scripts/migrate_full_name.py:74-78 | an initial is taken exactly when the first remaining token matches the initial pattern; it is then one or two capital letters and removes exactly that token |
| FullName.ParseFullName | scripts/migrate_full_name.py:38-83 | a blank name gives four empty parts and only a blank name gives an empty first name; the first name is the first token upper-cased; all parts are upper-case; the extension is empty or listed; the initial is empty or one or two capital letters |
| FullName.SplitJoin | scripts/migrate_full_name.py:81 | joining tokens with single spaces and splitting again gives the tokens back |
| FullName.UpperJoin | scripts/migrate_full_name.py:81-83 | upper-casing a joined name is joining the upper-cased tokens |
| FullName.LastNameWords | scripts/migrate_full_name.py:80-83 | the words of the last name survive upper-casing, joining and re-splitting |
| FullName.TokensAccountedFor | scripts/migrate_full_name.py:55-83 | the upper-cased tokens are, in order, the first name, the initial's token if taken, the words of the last name, and the extension's token if taken |
| FullName.ParseKeepsTokens | scripts/migrate_full_name.py:38-83 | no token of the name is lost or reordered by the parse; the initial and the extension are their tokens normalised |
| FullName.ExtensionTaken | scripts/migrate_full_name.py:70-72 | an extension is taken exactly when there are at least two tokens and the last one normalises to a listed extension |
| FullName.InitialTaken | scripts/migrate_full_name.py:74-78 | an initial is taken exactly when the second token matches the initial pattern and is not the extension just taken off |
| FullName.ExampleJeric | scripts/migrate_full_name.py:45 | "JERIC G. BOLEZA JR" parses to ("JERIC", "G", "BOLEZA", "JR") |
| FullName.ExampleMaria | scripts/migrate_full_name.py:46 | "MARIA SANTOS" parses to ("MARIA", "", "SANTOS", "") |
| FullName.ExampleJuan | scripts/migrate_full_name.py:47 | "JUAN DELA CRUZ III" parses to ("JUAN", "", "DELA CRUZ", "III") |
| FullName.ExampleAna | scripts/migrate_full_name.py:48 | "ANA M. REYES" parses to ("ANA", "M", "REYES", "") |
| FullName.TwoLetterSurnameLost | scripts/migrate_full_name.py:74-81 | as written, "JOHN NG" parses to ("JOHN", "NG", "", ""); the corrected parse gives ("JOHN", "", "NG", "") |
| FullName.TakeInitialKeepingSurname | scripts/migrate_full_name.py:74-78 | the corrected initial step leaves at least one token for the last name |
| FullName.ParseFullNameCorrected | scripts/migrate_full_name.py:42 | the corrected parse gives a non-empty last name exactly when some token is left between the first name and the extension |
| FullName.JoinNonEmpty | scripts/migrate_full_name.py:81 | joining gives the empty string exactly when there are no tokens |

## Left out

- Database access is not modelled. Cursors, connections, commits and the SQL and Mongo query text are left out. A table or collection is a sequence of rows in cursor order.
- The `print` diagnostics of the relational `find_best_match` are left out, because they do not affect the result.
- `json.loads`, `bytes.decode('utf-8')` and werkzeug's `check_password_hash` are foreign calls. They are function-typed parameters: `Codec` and `VerifyAdminPin`'s `checkHash`.
- Floating point is not modelled, and neither is the square root. Distances are exact reals and are compared through their squares. The distance a match reports is the squared one.
- NumPy broadcasting is not modelled. Subtracting a vector of length one, or a bare number, from the query does not raise in NumPy. In the model every length difference is a shape mismatch: the visitor scan skips the row, and the admin scan and the update raise.
- VectorMath.SqDist: NaN and infinite values are not modelled, because reals have neither. In Python, `no_action` is returned only when the closest distance stays infinite (every distance NaN, or none below infinity), the match threshold is itself infinite or NaN, so that the outlier guard does not fire, and the client already has the maximum number of templates. Neither is representable here, so `AdaptiveUpdate.Improve` proves `no_action` never happens.
- The update's lookup compares the client id exactly, while its insert upper-cases the id. In the document store this comparison is case-sensitive (see the second finding). In the relational store, whether `WHERE client_id = %s` ignores case depends on the column's collation, which is not part of the source; the model treats it as exact in both stores.
- AdaptiveUpdate.ImproveCapacity: holds only for an id that is already upper-case, as are the capacity clauses of `AdaptiveUpdate.ImproveAll` and `AdaptiveUpdate.StepKeepsCapacity`; for any other id the count grows without bound (the second finding).
- AdaptiveUpdate.Improve: templates are held already decoded. The decoding step of `get_embeddings_by_client_id`, and of the loop at dist/models/face_embedding_model.py:113-117, is not repeated. A template that fails to decode cannot be represented.
- The `updated_at` timestamp the merges write is not modelled, because it involves the clock.
- The other helpers of the same files are not part of this model, because they are not on the matching or update path. These are `get_embedding_by_client_id`, `update_face_embedding`, `delete_embeddings_by_client_id`, `get_admin_by_id`, `update_admin_password` and the password login.
- AdminMatch.FindBestAdminMatch: a stored value that fails to decode, or a candidate of the wrong length, makes the whole call fail. The source has no exception handler in this scan, so the model does not skip such a row.
- AdminMatch.RowCandidates: the SQL filter `face_embedding IS NOT NULL` is folded into the falsy check. A NULL value and an empty value both give no candidates.
- Text.Upper: upper-casing is ASCII only. Python's `str.upper` also maps other letters, some of which change a string's length, such as `ß` becoming `SS`. Likewise `re.IGNORECASE` lets a few non-ASCII letters match `[A-Z]`; the model counts only ASCII letters as letters.
- FullName.ParseFullName: a `None` full name is not modelled, because names are strings. Python returns four empty parts for it, as it does for the empty string.
- The migration script's database loop, its dry-run flag and its reporting are left out; only `parse_full_name` is modelled.
- Concurrency is not modelled. Each call is treated as atomic.

## Findings

| source | as written | input that shows it | evidently intended | confidence | as-written member | corrected member |
|---|---|---|---|---|---|---|
| dist/models/face_embedding_model.py:148,167 | both merge branches call `datetime.now()`, but the module imports only `json`, `get_db` and `numpy` (lines 1-3), so they raise `NameError` before the update is written | one stored template `[1.0]` for client C-1, presented again as `[1.0]` | blend the capture into the closest template and return `merged_existing`, as the relational version does | not executed | AdaptiveUpdate.ImproveDocumentAsWritten | AdaptiveUpdate.Improve |
| dist/models/face_embedding_model.py:11,75 | the update looks templates up with `find({"client_id": client_id})`, an exact and case-sensitive match, but every insert stores `client_id.upper()` | client id "c-1" with no templates, given four captures: each is `added_initial`, and "C-1" ends with four templates | look up and insert under the same key, so the client keeps at most `max_embeddings` (3) templates | not executed | AdaptiveUpdate.Improve | AdaptiveUpdate.ImproveByKey |
| scripts/migrate_full_name.py:74-81 | the initial pattern also matches a two-letter surname when it is the only token after the first name, so the last name comes back empty | "JOHN NG" gives ("JOHN", "NG", "", "") | `FIRST [MI.] LAST [EXT]` with a non-empty last name whenever a token remains: ("JOHN", "", "NG", "") | not executed | FullName.ParseFullName | FullName.ParseFullNameCorrected |

The first finding is exhibited by `AdaptiveUpdate.DocumentMergeRaises`, and
`AdaptiveUpdate.ImproveMergesNear` proves the intended merge. The second is
exhibited by `AdaptiveUpdate.MixedCaseGrowsWithoutBound` and
`AdaptiveUpdate.MixedCaseExceedsDefaultLimit`; `AdaptiveUpdate.ImproveByKey`
proves the intended bound and `AdaptiveUpdate.ImproveByKeyFindsStored` that
a repeated capture is found. The third is exhibited by
`FullName.TwoLetterSurnameLost`, and `FullName.ParseFullNameCorrected`
proves the intended property.
`FullName.CorrectionConservative` states that the correction agrees with the
parse as written wherever the latter keeps a last name.
