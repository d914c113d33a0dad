# face-recognition: a verified model of registration and identification

This project models the core of a face-recognition login system. It covers registration and identification.

- **Registration.** A captured frame with exactly one face yields a vector of facial features. The registration screen checks the name and password against an encrypted SQLite user store. A background thread then writes the user, with a bcrypt hash and the comma-joined vector.
- **Identification.** A query frame's vector is compared with every stored vector, and the nearest user is accepted when the Euclidean distance is below 11.

## Modules

- `Wrappers`: Option, Result, Unit.
- `Numerics`: the laws a square root must obey (`IsSqrt`) and their consequences.
- `Serial`: `",".join(map(str, v))` and `[float(t) for t in s.split(",")]`, with the round trip between them.
- `Store` (DatabaseManager.py): the class `DatabaseManager`. Its fields are the file on disk, the `users` table and the AUTOINCREMENT counter.
  - The methods model `encrypt_file`, `decrypt_file`, `connect`, `init_db`, `user_exists`, `register_user` and `get_all_users`.
  - `hash_password` and `verify_password` are the functions `HashPassword` and `VerifyPassword`.
  - Fernet and bcrypt are function-valued parameters. Their laws (`FernetLaws`, `BcryptLaws`) are preconditions.
- `Features` (UserIdentification.py):
  - `preprocess_image`'s size rule.
  - The face-count check.
  - The 19 selected points, their 171 pairs in `itertools.combinations` order, and the 5 angle triplets.
  - The 176-entry feature vector, and `draw_landmarks`.
  - dlib's detector and shape predictor, `np.sqrt` and `np.degrees(np.arccos(.))` are fields of `Identifier`.
- `Matcher` (UserSearch.py): `calculate_euclidean_distance` on two strings, the scan of `find_nearest_user`, and the `UserSearch` constructor (`Identify`).
- `Extraction` (FeatureExtractionThread.py): `run`, once as a function of what the extractor and `register_user` produce (`Run`), and once as a method against a store (`RunThread`).
- `Registration` (RegisterScreen.py): the decision taken by `submit_data` (`SubmitDecision`), and the class `RegisterScreen` with the two fields the screen updates, `captured_frame` and `feature_extraction_thread`.
  - `register_user_with_overwrite` and `register_user_without_overwrite` only forward a flag, so they are inlined in `SubmitData`.

Behaviour of the code worth knowing, each stated and proved in the model:

- **176 entries.** The point list selects 19 landmarks, so the vector has 171 + 5 = 176 entries (`FeatureVectorLength`).
- **No duplicate-name or not-found errors.** `register_user` never raises these. Without overwrite it inserts a second row with the same name (`DuplicateNamesKept`). With overwrite it updates every row with that name, and updating zero rows still reports success (`OverwriteEffect`).
- **A failed transaction is not re-encrypted.** `register_user` returns False without calling `encrypt_file`, so the file stays as opening left it, decrypted when decryption succeeded (`RegisterUser`'s `!ok` clause). The same holds for a SELECT that fails in `user_exists` or `get_all_users`.
- **No degenerate-geometry guard.** The extractor does not check for coincident landmarks. The model requires them to be distinct (`Extractable`).
- **The "Unable to detect face" message is unreachable.** `run` has this branch, but the real extractor never returns an empty vector (`ExtractorNeverEmpty`).
- **Shift and scale do not change the vector.** Distances are divided by the outer-eye distance, so the same face moved or enlarged gives the same 176 numbers (`TranslationInvariant`, `ScaleInvariant`).
- **Row order matters only for ties and errors.** Whether the search accepts, and at what distance, does not depend on the order of the rows (`SearchOrderIndependent`). Which of two tied rows is returned does (`TieGoesToEarlier`), and so does which of two errors is raised (`FirstErrorDependsOnOrder`).
- **A lookup exception is not caught.** In `submit_data`, an error raised by `user_exists` escapes the slot. The model returns it as `LookupRaised`.

## Model

| member | source | states |
|---|---|---|
| Store.EncryptedFile | DatabaseManager.py:30-39 | the file encrypt_file leaves; its properties are stated by EncryptIdempotent, EncryptSeals and EncryptThenDecrypt |
| Store.DecryptedFile | DatabaseManager.py:41-57 | the file decrypt_file leaves, or InvalidToken; its properties are stated by EncryptThenDecrypt and DecryptIdempotent |
| Store.HasHeader | DatabaseManager.py:36 | `startswith(b'SQLite format 3')`; a Fernet token never has the header (EncryptIdempotent, EncryptSeals), and the bytes SQLite writes always have it (ImageLawsSatisfiable) |
| Store.Decrypted | DatabaseManager.py:41-57 | k decrypt_file steps in a row, stopping at the first InvalidToken; used by Holds |
| Store.Holds | DatabaseManager.py:22-28 | the table a file holds: every SQLite database that repeated decryption of the file yields is the bytes SQLite writes for that table; part of Valid, so every method keeps it |
| Store.Open | DatabaseManager.py:59-63 | a method's own decrypt_file followed by the one in connect, stopping at the first error; stated by DecryptIdempotent and SealedReopens |
| Store.Lookup | DatabaseManager.py:96-97 | the SELECT of user_exists finds a row exactly when some row has the name, and returns that row's hash and vector |
| Store.Listings | DatabaseManager.py:155-156 | `SELECT id, name, feature_vector`: one listing per row, in table order; used by GetAllUsers |
| Store.Overwritten | DatabaseManager.py:126-129 | the UPDATE statement; its effect is stated by OverwriteEffect and OverwriteThenLookup |
| Store.DatabaseManager.HashPassword | DatabaseManager.py:81-85 | whatever the salt, verify_password accepts the password against its hash |
| Store.DatabaseManager.VerifyPassword | DatabaseManager.py:87-89 | `bcrypt.checkpw(provided, stored)`; its partner is HashPassword, and `Registration.RegisterScreen.SubmitData` uses it to decide whether an existing user may be overwritten |
| Store.FirstNamed | DatabaseManager.py:96-97 | `fetchone` of `WHERE name = ?`: the first row with that name, every earlier row has another name, and None exactly when no row has it |
| Store.DatabaseManager.constructor | DatabaseManager.py:22-28 | an existing file is taken as found, together with the table it holds (`Holds`): every database that decrypting it yields is the table's bytes; a missing file becomes an encrypted database with an empty table |
| Store.DatabaseManager.EncryptFile | DatabaseManager.py:30-39 | only a present file starting with the SQLite header changes, and it becomes the encryption of its bytes; the file still holds the same table |
| Store.DatabaseManager.DecryptFile | DatabaseManager.py:41-57 | a missing or plain file is left alone; otherwise the decryption is written, or InvalidToken is raised with the file unchanged; it fails exactly when Fernet rejects the token; the file still holds the same table |
| Store.DatabaseManager.Connect | DatabaseManager.py:59-63 | connect is decrypt_file followed by opening, with the same effect and error; the file still holds the same table |
| Store.DatabaseManager.InitDb | DatabaseManager.py:65-79 | a missing file becomes an encrypted empty table; a present one keeps its rows and is re-encrypted, or the decryption or database error is returned |
| Store.ReadError | DatabaseManager.py:91-99 | a read-only transaction raises nothing exactly when the file opens to a database and the SELECT succeeds |
| Store.DatabaseManager.UserExists | DatabaseManager.py:91-100 | table unchanged; the first matching row's hash and vector after a successful open and SELECT, re-encrypting the file; the error of a failed open or SELECT otherwise, with the file as opening left it |
| Store.DatabaseManager.RegisterUser | DatabaseManager.py:102-148 | True exactly when the file opens to a database and no statement fails; then INSERT appends a row with the next id, or UPDATE rewrites the rows with that name, and the file is re-encrypted; False changes no row |
| Store.DatabaseManager.GetAllUsers | DatabaseManager.py:150-159 | `(id, name, feature_vector)` of every row in table order, the table unchanged, the file re-encrypted; the error of a failed open or SELECT otherwise, with the file as opening left it |
| Store.InsertKeepsIds | DatabaseManager.py:70-75 | AUTOINCREMENT gives the inserted row an id above every earlier id, so ids stay strictly increasing |
| Store.EncryptThenDecrypt | DatabaseManager.py:30-57 | decrypt_file after encrypt_file restores the database file byte for byte |
| Store.EncryptIdempotent | DatabaseManager.py:30-39 | a second encrypt_file changes nothing, because a token never starts with the header |
| Store.EncryptSeals | DatabaseManager.py:30-39 | after encrypt_file no database file is readable on disk |
| Store.DecryptIdempotent | DatabaseManager.py:59-63 | the decrypt_file inside connect, after the caller's own decrypt_file, changes nothing |
| Store.SealedReopens | DatabaseManager.py:91-99 | the file a successful transaction leaves behind opens again to the same database |
| Store.WrittenHolds | DatabaseManager.py:136-139 | a file SQLite has just written for a table holds that table |
| Store.EncryptKeepsHolds | DatabaseManager.py:30-39 | encrypting a file keeps the table it holds |
| Store.DecryptKeepsHolds | DatabaseManager.py:41-57 | a successful decryption keeps the table the file holds |
| Store.SealedHoldsOnlyItsTable | DatabaseManager.py:22-28 | an encrypted file written for one table holds no other: the store built on it answers from that table |
| Store.ImageLawsSatisfiable | DatabaseManager.py:36 | the laws assumed of SQLite's writer (header first, different tables give different bytes) are met by a concrete writer, so they are not contradictory |
| Store.FernetLawsSatisfiable | DatabaseManager.py:37 | the laws assumed of Fernet are met by a concrete cipher, so they are not contradictory |
| Store.InsertedIsFound | DatabaseManager.py:131-134 | after an INSERT, user_exists finds the name; for a new name it returns the new hash, which verify_password accepts for the password |
| Store.FirstNamedPrefix | DatabaseManager.py:96-97 | appending rows does not move the first match of a name already present |
| Store.FirstNamedByNames | DatabaseManager.py:96-97 | tables with the same names row by row find a name at the same row |
| Store.OverwriteEffect | DatabaseManager.py:126-129 | UPDATE keeps the row count, ids and names, rewrites hash and vector of exactly the rows with that name, and leaves the others equal |
| Store.OverwriteThenLookup | DatabaseManager.py:126-129 | after UPDATE, user_exists returns the new hash and vector, or still None when no row matched |
| Store.DuplicateNamesKept | DatabaseManager.py:131-134 | register_user's INSERT on an existing name keeps the old row and adds a second with the same name, and user_exists still returns the old row |
| Serial.Split | UserSearch.py:46-47 | `split(",")` yields at least one piece and no piece contains a comma |
| Serial.JoinSplit | UserSearch.py:46-47 | joining the pieces of a split gives back the string |
| Serial.SplitPiece | UserSearch.py:46-47 | a piece without a comma splits off as one token |
| Serial.SplitJoin | FeatureExtractionThread.py:26 | splitting a join of comma-free tokens gives back the tokens |
| Serial.ParseTokens | UserSearch.py:46-47 | the list comprehension fails exactly when some token is not a number, and otherwise parses each token in place |
| Serial.FloatTextLawsSatisfiable | UserSearch.py:46-47 | the laws assumed of `str` and `float` are met by a concrete pair, so they are not contradictory |
| Serial.EncodeVector | FeatureExtractionThread.py:26 | `",".join(map(str, v))`; read back by DecodeEncode |
| Serial.Join | FeatureExtractionThread.py:26 | `",".join(tokens)`; split gives the tokens back when none holds a comma (SplitJoin), and join undoes split (JoinSplit) |
| Serial.DecodeVector | UserSearch.py:46-47 | `float` raises exactly when some token of the split is not a number; otherwise one number per token, each the token's value |
| Serial.DecodeEncode | FeatureExtractionThread.py:26 | a non-empty vector written with `",".join(map(str, .))` and read back with `float(.)` per token is the same vector, as floats |
| Numerics.SqrtZero | UserSearch.py:52 | the square root of 0 is 0 |
| Numerics.SqrtPositive | UserSearch.py:52 | the square root of a positive number is positive |
| Numerics.SqrtIncreasing | UserSearch.py:52 | of two non-negative numbers, the smaller has the smaller square root |
| Numerics.SqrtLessIff | UserSearch.py:52 | `sqrt(x) < b` exactly when `x < b * b` |
| Numerics.SqrtSquared | UserIdentification.py:44 | the square root of a non-negative number, squared, is that number |
| Numerics.SqrtScale | UserIdentification.py:44 | `sqrt(k*k*a) == k*sqrt(a)` for positive k |
| Features.PreprocessImage | UserIdentification.py:19-28 | an image whose larger side is at most 800 keeps its size; a larger one is scaled so its larger side is exactly 800; no side grows |
| Features.ScaledSide | UserIdentification.py:24-25 | `int(side * 800 / m)` is at most 800 and at most the side, and exactly 800 for the larger side |
| Features.SingleFace | UserIdentification.py:34-38 | zero faces raise NoFaceDetected, several raise MultipleFacesDetected, exactly one passes and is `faces[0]` |
| Features.Pairs | UserIdentification.py:70 | `combinations(s, 2)` has n(n-1)/2 pairs, counted by Choose2 |
| Features.PairsFrom | UserIdentification.py:70 | both halves of every pair come from the input |
| Features.Choose2Closed | UserIdentification.py:70 | Choose2(n) is n(n-1)/2 |
| Features.PairsAt | UserIdentification.py:70 | the pair of positions i < j sits at PairIndex(n, i, j), in lexicographic order |
| Features.Minus | UserIdentification.py:47-48 | the difference vector is zero exactly when the two points coincide |
| Features.Norm | UserIdentification.py:44 | `np.linalg.norm` of a 2-D vector; stated by NormFacts and ScaleNorm |
| Features.NormFacts | UserIdentification.py:44 | a norm is non-negative, and positive for a non-zero vector |
| Features.EuclideanDistance | UserIdentification.py:43-44 | the distance from p to q is the distance from q to p |
| Features.CalculateAngle | UserIdentification.py:46-51 | the angle at B is unchanged when A and C swap |
| Features.AngleBetween | UserIdentification.py:49-51 | `degrees(arccos(dot / (|BA| * |BC|)))`, defined only for non-zero BA and BC; stated by AngleOfDifferences and CalculateAngle |
| Features.Cosine | UserIdentification.py:49 | `np.dot(BA, BC) / (norm(BA) * norm(BC))`; stated by ScaleCosine |
| Features.DistanceFacts | UserIdentification.py:43-44 | euclidean_distance is non-negative, and positive between distinct points |
| Features.PairsWithinOf | UserIdentification.py:70-72 | pairs drawn from landmark indices name two of the 68 landmarks |
| Features.SelectedPointsInRange | UserIdentification.py:55-64 | every selected point is one of the 68 landmarks |
| Features.PairsInRange | UserIdentification.py:55-72 | every pair `landmarks.part(i)` and `part(j)` reads exists |
| Features.ReferenceDistance | UserIdentification.py:66-68 | the outer-eye distance; stated by ReferenceEntryIsOne and ScaleNormalizedDistance |
| Features.NormalizedDistance | UserIdentification.py:70-74 | a pair's distance over the reference distance; stated by FeatureEntryOfPair, PairDistancesNonNegative and ScaleNormalizedDistance |
| Features.PairDistances | UserIdentification.py:70-75 | the values the first loop appends; stated by VectorFromLandmarks, TranslatePairDistances and ScalePairDistances |
| Features.TripletAngle | UserIdentification.py:85-89 | the angle of one triplet; stated by FeatureEntryOfAngle and ScaleAngles |
| Features.Angles | UserIdentification.py:77-90 | the values the second loop appends; stated by VectorFromLandmarks, TranslateAngles and ScaleAngles |
| Features.FeatureVectorOf | UserIdentification.py:66-90 | the distances then the angles, for any list of points; stated by FeatureVectorOfLength, TranslationInvariant and ScaleInvariant |
| Features.FeatureVector | UserIdentification.py:55-92 | the vector for the 19 selected points; stated by FeatureVectorLength and EyeEntryIsOne |
| Features.FeatureVectorOfLength | UserIdentification.py:70-90 | n points give n(n-1)/2 distances followed by the 5 angles |
| Features.FeatureVectorLength | UserIdentification.py:55-90 | the vector has exactly 176 entries |
| Features.FeatureEntryOfPair | UserIdentification.py:70-75 | the entry of pair (i, j) is the distance between those landmarks over the reference distance |
| Features.ReferenceEntryIsOne | UserIdentification.py:66-75 | the entry of the outer-eye pair is exactly 1 |
| Features.EyeEntryIsOne | UserIdentification.py:55-75 | entry 82 of the 176, the pair (36, 45), is exactly 1 |
| Features.FeatureEntryOfAngle | UserIdentification.py:85-90 | after the distances, entry Choose2(n) + t is the angle of triplet t |
| Features.PairDistancesNonNegative | UserIdentification.py:70-75 | every normalised distance is non-negative |
| Features.DistanceEntriesNonNegative | UserIdentification.py:70-75 | every distance entry of the vector is non-negative |
| Features.TranslateDifferences | UserIdentification.py:47-48 | shifting the face changes no difference between two landmarks |
| Features.TranslateDistance | UserIdentification.py:43-44 | shifting the face changes no distance between two landmarks |
| Features.TranslateNonDegenerate | UserIdentification.py:66-90 | a shifted face that was extractable stays extractable |
| Features.TranslatePairDistances | UserIdentification.py:66-75 | shifting the face changes no normalised distance |
| Features.AngleOfDifferences | UserIdentification.py:46-51 | calculate_angle depends only on BA and BC |
| Features.TranslateAngles | UserIdentification.py:77-90 | shifting the face changes no angle |
| Features.TranslationInvariant | UserIdentification.py:30-92 | the whole feature vector is invariant under shifting the face; the shift is the helper `Translate`, which moves every landmark by one offset |
| Features.ScaleDifference | UserIdentification.py:47-48 | the difference between two scaled landmarks is the scaled difference |
| Features.ScaleNorm | UserIdentification.py:44 | a vector k times as long has k times the norm |
| Features.ScaleDistance | UserIdentification.py:43-44 | scaling the face k times multiplies every landmark distance by k |
| Features.ScaleNonDegenerate | UserIdentification.py:66-90 | a scaled face that was extractable stays extractable |
| Features.ScaleNormalizedDistance | UserIdentification.py:70-74 | dividing by the reference distance cancels the scale: a normalised distance is unchanged |
| Features.ScalePairDistances | UserIdentification.py:66-75 | scaling the face changes no normalised distance |
| Features.ScaleDot | UserIdentification.py:49 | the dot product of two vectors k times as long is k*k times as large |
| Features.ScaleCosine | UserIdentification.py:49 | the cosine of two vectors does not change when both grow k times |
| Features.ScaleAngleBetween | UserIdentification.py:46-51 | calculate_angle does not change when both BA and BC grow k times |
| Features.ScaleAngles | UserIdentification.py:77-90 | scaling the face changes no angle |
| Features.ScaleInvariant | UserIdentification.py:30-92 | the whole feature vector is the same for the face k times as large, for any k > 0: the point of dividing by the eye distance; the scaling is the helper `Scale` |
| Features.VectorFromLandmarks | UserIdentification.py:70-90 | the two loops append, in order, each pair's normalised distance and then each triplet's angle |
| Features.Extracted | UserIdentification.py:30-92 | extraction raises exactly when the image does not show one face, and otherwise yields 176 numbers |
| Features.ExtractFeatureVector | UserIdentification.py:30-92 | NoFaceDetected exactly for no face, MultipleFacesDetected exactly for several; otherwise the feature vector of the one face's landmarks |
| Features.Drawn | UserIdentification.py:94-109 | draw_landmarks raises NoFaceDetected exactly for no face, MultipleFacesDetected exactly for several, and succeeds exactly for one |
| Features.DrawnOnKeepsSize | UserIdentification.py:105-108 | drawing circles at any points keeps the frame's height and width |
| Features.DrawnOn | UserIdentification.py:105-108 | the frame after a circle at each point in order; stated by DrawnOnKeepsSize and DrawLandmarks |
| Features.DrawnKeepsSize | UserIdentification.py:94-109 | the frame draw_landmarks returns has the size of the frame it was given |
| Features.DrawLandmarks | UserIdentification.py:94-109 | the loop draws a circle at each of the 68 landmarks in order, and the result is what draw_landmarks returns or raises |
| Matcher.SumSquaresNonNegative | UserSearch.py:52 | the summed squared differences are non-negative |
| Matcher.SumSquaresSymmetric | UserSearch.py:52 | the summed squared differences are symmetric |
| Matcher.SumSquaresSelf | UserSearch.py:52 | a vector's summed squared differences with itself are 0 |
| Matcher.SumSquares | UserSearch.py:52 | `np.sum((vector1 - vector2) ** 2)`; stated by SumSquaresNonNegative, SumSquaresSymmetric, SumSquaresSelf and AcceptIffSquaredBelow |
| Matcher.Distance | UserSearch.py:39-54 | BadNumber exactly when either string has a token that is not a number; otherwise SizeMismatch exactly when the lengths differ; otherwise the root of the summed squared differences |
| Matcher.DistanceIsMetricLike | UserSearch.py:39-54 | calculate_euclidean_distance is non-negative and symmetric, errors included, and 0 from a vector to itself |
| Matcher.DistanceOfEncoded | UserSearch.py:46-52 | on vectors written by join, the distance is the Euclidean distance of the numbers as floats, and different lengths raise the size error |
| Matcher.AcceptIffSquaredBelow | UserSearch.py:34 | the acceptance test `distance < 11` is `sum of squares < 121` |
| Matcher.AllDistances | UserSearch.py:27-29 | the distances to every user in order, or the error of the first user whose distance raises, which happens exactly when some distance raises |
| Matcher.EarliestMinimumUnique | UserSearch.py:30-32 | with strict `<`, ties go to one user only: the earliest |
| Matcher.MinimumOrderIndependent | UserSearch.py:27-33 | two lists with the same distances in any order have the same minimum; SearchOrderIndependent lifts this to the rows |
| Matcher.DistanceTo | UserSearch.py:28-29 | the distance from the query to one row's stored vector; stated by AllDistancesAreDistancesTo |
| Matcher.DistancesTo | UserSearch.py:27-29 | one DistanceTo per row, in order; stated by DistancesToPermute |
| Matcher.AllDistancesAreDistancesTo | UserSearch.py:27-29 | when no distance raises, the scan's distances are each row's DistanceTo in row order |
| Matcher.DistancesToPermute | UserSearch.py:27-29 | the rows in another order give the same multiset of distances |
| Matcher.ChosenOrderIndependent | UserSearch.py:30-37 | over the same distances in any order the search accepts or rejects alike, and at the same distance |
| Matcher.SearchOrderIndependent | UserSearch.py:23-37 | the rows in any order: the scan raises or not alike, the distances are the same multiset, and the answer accepts or rejects alike, at the same distance |
| Matcher.TieGoesToEarlier | UserSearch.py:30-32 | of two rows at the same accepted distance the earlier one is returned, so the returned row depends on row order |
| Matcher.FirstErrorDependsOnOrder | UserSearch.py:27-29 | of two rows whose distances raise, the error of the earlier one is reported, so the error depends on row order |
| Matcher.ScanSettles | UserSearch.py:34-37 | from the scan's final state, the threshold test gives a match exactly when some distance is below 11, and then the earliest nearest user |
| Matcher.NearestAmong | UserSearch.py:24-37 | the loop returns the first error raised, else a match exactly when some distance is below 11, and then the earliest user at the smallest distance |
| Matcher.FindNearestUser | UserSearch.py:16-37 | get_all_users then the scan: the store's own error when opening or the SELECT fails, otherwise the scan's answer; no row changes, and the file is re-encrypted exactly when the read succeeded |
| Matcher.Identify | UserSearch.py:10-14 | from the point where its DatabaseManager exists: an extractor exception aborts before get_all_users is called; otherwise the comma-joined query vector is searched for, with find_nearest_user's result and effect on the file |
| Matcher.IdenticalVectorAccepted | UserSearch.py:27-35 | a stored vector written from the query's own numbers is at distance 0, so the search accepts, and at distance 0 |
| Extraction.Run | FeatureExtractionThread.py:18-35 | one register_user call, with the thread's name, password, joined vector and flag, exactly for a non-empty vector; the success message exactly when it returns True, the failure message exactly when it returns False; an exception becomes its message |
| Extraction.MessagesDistinct | FeatureExtractionThread.py:23-35 | the four messages never coincide, so the message tells which way run went |
| Extraction.StoredVectorDecodes | FeatureExtractionThread.py:26-27 | the string stored by run parses back to the extracted vector |
| Extraction.ExtractorNeverEmpty | FeatureExtractionThread.py:21-24 | with the real extractor the empty-vector branch is dead, and the register call happens exactly when the frame shows one face |
| Extraction.RunThread | FeatureExtractionThread.py:18-35 | the emitted message is Run's; no call or a failed call changes no row; a successful call appends or overwrites the row and leaves the new table encrypted; a failed call leaves the file as opening left it |
| Registration.SubmitDecision | RegisterScreen.py:184-214 | empty fields stop before any lookup; overwrite exactly for an existing name whose password verifies and a "Yes"; a fresh registration exactly for a new name with a kept frame; a wrong password exactly when the stored hash rejects it |
| Registration.OwnerCanOverwrite | RegisterScreen.py:198-207 | whoever registered a new name passes the overwrite check for it with the same password |
| Registration.OverwriteKeepsOwnership | RegisterScreen.py:198-207 | after an overwrite, the new password passes the overwrite check again |
| Registration.RegisterScreen.constructor | RegisterScreen.py:16-24 | a new screen has no kept frame and no thread |
| Registration.RegisterScreen.ProcessCapturedFrame | RegisterScreen.py:162-182 | a frame is kept exactly when draw_landmarks finds one face, and it is the frame with the landmarks drawn on it; otherwise the kept frame is cleared |
| Registration.RegisterScreen.StartFeatureExtractionThread | RegisterScreen.py:224-233 | a thread on the kept frame is started exactly when there is one; otherwise nothing changes |
| Registration.RegisterScreen.SubmitData | RegisterScreen.py:184-222 | the outcome is SubmitDecision on what user_exists returns, the file is as user_exists leaves it, and a thread with the chosen overwrite flag starts exactly when registration is decided |
| Registration.RegisterScreen.OnExtractionComplete | RegisterScreen.py:235-240 | the thread's message is shown, and both the thread and the kept frame are cleared |

## Left out

- The Qt widgets, message boxes, camera control, the eye icon, `showEvent`, `hideEvent` and `go_back`. `OnExtractionComplete`'s return value stands for the message box.
- Running threads: `run` is called directly. QThread scheduling and the signal's delivery to `on_extraction_complete` are not modelled.
- Pixels: OpenCV's resizing, greyscale conversion and the pixels a circle paints. The greyscale image is a size plus its source frame, and `cv2.circle` is a parameter.
- Features.DrawLandmarks, Registration.RegisterScreen.ProcessCapturedFrame: a frame is a value. `draw_landmarks` paints the caller's array in place and returns that same object. The model returns the painted frame instead, and the screen keeps it. The aliasing is not captured: the caller's own `frame` variable also changes in the source.
- dlib: the detector and shape predictor are parameters, as are Fernet, bcrypt, `np.sqrt`, `arccos`, `str(float)` and `float(str)`. Each is constrained only by the laws the proofs need.
- `load_or_create_key` and reading or writing the key file: the cipher is a parameter of the store.
- Floating point: computation uses exact reals, so there is no rounding inside the arithmetic, no NaN and no infinity. Rounding is modelled only where a number is written as text: `str` writes, and `float` reads back, the float the real stands for (`FloatText.round`).
- Features.PreprocessImage: computes `int(width * scale)` exactly, where the source rounds the float product before truncating. A side that scales to 0, as in a 1×1000 frame, makes `cv2.resize` raise `cv2.error`. That error escapes `process_captured_frame`, which catches only the two face exceptions, and the `UserSearch` constructor. The model instead goes on with an image with a 0-pixel side.
- Features.ExtractFeatureVector, Features.Extracted and Features.CalculateAngle: require the reference distance to be non-zero and every angle's vertex to differ from its ends (`Extractable`, `NonDegenerate`). Otherwise numpy returns inf or NaN, which the model leaves out.
- Store.DatabaseManager.RegisterUser: the branch that joins a list-valued `feature_vector` (lines 114-115) is left out; every caller passes a string.
- Store.DatabaseManager.EncryptFile: Fernet puts a random IV and the current time into every token, so encrypting the same bytes twice gives different files. The model's `encrypt` is a function of the plaintext, so the same bytes always give the same token. The methods that re-encrypt are the constructor, `InitDb`, `UserExists`, `RegisterUser` and `GetAllUsers`. For them, the model promises that a successful read (`UserExists`, `GetAllUsers`) of an encrypted file leaves it byte for byte the same, and the source does not. Only the decrypted contents are the same in both.
- Store.DatabaseManager.RegisterUser: `fault` stands for any sqlite3 error a statement may raise on a readable database. Exceptions from `hash_password`, which runs outside the `try`, are not modelled. bcrypt's random salt is a parameter.
- Store.DatabaseManager.UserExists, Store.DatabaseManager.GetAllUsers: `fault` stands for any sqlite3 error the SELECT may raise on a readable database. As in the source, the exception skips `encrypt_file`.
- The SQLite file format: the rows and the file bytes are separate fields, tied by `image`, the bytes SQLite writes for a table. Each successful write stores `image(rows)`, and a store's file always holds its rows (`Holds`). `image` is only required to start with the header and to tell tables apart.
- `sqlite3.connect` on a missing file creates an empty database file. In the model, statements on a missing file fail with DatabaseError, except in `init_db`, which creates the table.
- Several `DatabaseManager` instances sharing one file: `UserIdentification`, `UserSearch`, `FeatureExtractionThread` and `RegisterScreen` each build their own. The model passes one store around.
- `get_nearest_user` only returns the stored field, so it is not modelled. `UserIdentification`'s unused store is also left out.
