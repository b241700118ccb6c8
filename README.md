# Zupeload identity resolution, modelled in Dafny

This project models the identity-resolution core of the Zupeload face-tagging server.

**The person store** (`PersonStore`) is a redb table `user_table`. It maps the text form of each person's UUID to that person's record, an id plus every embedding recorded for it. It offers four operations:
- `save` inserts or overwrites one record;
- `find_match` scans the records in key order and returns the first person with some embedding strictly more similar to the query than the threshold;
- `add_embedding` appends one embedding to a stored person, and silently does nothing for an unknown id;
- `load_all_people` lists every record in key order.

**The pipeline** (`process_images_and_tag`) goes over the image entries of a directory and the faces the detector finds in each. For every face whose embedding succeeds, it:
1. matches the embedding against the store as it stands at that moment;
2. applies a fixed 0.90 confidence gate:
   - a confident match gains the embedding;
   - a confident stranger becomes a new person;
   - anything less confident leaves the store alone;
3. reports one `DetectedFace` carrying the resolved id. A hesitant stranger gets a fresh id that is never stored.

`is_image` filters directory entries by extension.

## How the model is organised

- `optional.dfy`: the `Option` type.
- `uuids.dfy`: 128-bit ids and their lower-case hyphenated text form.
  - This is the key under which a record is filed.
  - Proved: the text layout, a parse that inverts the text form, and that the text form is injective.
- `domain.dfy`: `Person`, `BoundingBox` and `DetectedFace`.
- `similarity.dfy`: the similarity measure as a parameter, with the two guards cosine similarity has (0 on a length mismatch, 0 on a zero-magnitude vector).
- `keyorder.dfy`: the lexicographic key order and insertion into the sorted key index.
- `database.dfy`: the store.
  - The committed contents are a value `Db`: whether the table exists, the key-to-record map, and the sorted key index.
  - Each write transaction is one assignment of that value, made by `class PersonStore`.
  - `FirstMatch`, `Inserted` and `Extended` state each operation's meaning on values.
  - The methods are proved against them.
- `processor.dfy`: `is_image`, plus the pipeline in two forms:
  - a specification over values: `TagFace` is one face, `RunSightings` runs the faces in order, `Process` is a whole run;
  - imperative methods (`ProcessImagesAndTag` with its nested loops down to `ResolveFace`), each proved to leave the store and the results exactly as the specification says.
- `processor_properties.dfy`: what a run promises.
  - The four outcomes of the gate.
  - One result per embedded face.
  - The bookkeeping between results, decisions and stored keys across a whole run, including the growth of the store.
  - Two concrete scenarios.

Collaborators are parameters of a run (`Pipeline`):
- the threshold;
- the similarity measure;
- the detector, a path-to-faces function standing for `image::open` plus detection;
- the embedder, a crop-to-optional-embedding function;
- the sequence of ids `Uuid::new_v4` hands out, in call order.

## Model

| member | source | states |
|---|---|---|
| Uuids.UuidTextFormat | server/src/infrastructure/database.rs:20 | The key of a record is 36 characters: lower-case hex digits with hyphens at positions 8, 13, 18 and 23. |
| Uuids.UuidRoundTrip | server/src/infrastructure/database.rs:20 | Parsing the key text back yields the id, so the key loses no information. |
| Uuids.UuidToStringInjective | server/src/infrastructure/database.rs:61 | Distinct ids have distinct keys, so `add_embedding` on an id reaches exactly that person's key. |
| Uuids.UuidToString | server/src/infrastructure/database.rs:20 | `id.to_string()`: the 32 hexadecimal digits of the id, most significant first, lower case, with a hyphen after the 8th, 12th, 16th and 20th digit. The same key is computed at database.rs:61. |
| KeyOrder.KeyLess | server/src/infrastructure/database.rs:45 | The order `table.range` walks `&str` keys in: lexicographic on characters, a proper prefix first. On UTF-8 this is the same as byte order. |
| KeyOrder.InsertKey | server/src/infrastructure/database.rs:27 | Inserting a new key into the sorted key index keeps it strictly sorted and adds exactly that key. |
| KeyOrder.KeyLessTotal | server/src/infrastructure/database.rs:45 | Two distinct keys are always ordered one way or the other, so a range scan has one order. |
| Database.PersonStore.constructor | server/src/infrastructure/database.rs:14-17 | Opening yields a valid store: the file's contents, or an empty store with no table yet. |
| Database.PersonStore.Save | server/src/infrastructure/database.rs:19-31 | One write transaction: the table is created if needed, and the record under the person's key becomes the person. |
| Database.SaveOverwritesOnlyItsKey | server/src/infrastructure/database.rs:19-31 | After a save, the key holds the person whether or not it was present; every other key is unchanged; the size grows by one exactly when the key is new. |
| Database.Inserted | server/src/infrastructure/database.rs:24-29 | A save's new contents are valid, have the table, and map the key to the person. |
| Database.PersonStore.FindMatch | server/src/infrastructure/database.rs:33-58 | With no table, or no record qualifying by strict `>`, the result is None. Otherwise it is the qualifying record with the smallest key: a stored record filed under its own id, with no smaller key qualifying. |
| Database.Qualifies | server/src/infrastructure/database.rs:49-53 | A person qualifies when some one of its embeddings has a similarity to the query strictly greater than the threshold. Equality does not qualify. |
| Database.FirstMatch | server/src/infrastructure/database.rs:45-57 | The first person in the list that qualifies, or None. The scan stops at the first hit, so it is not a best-score search. |
| Database.FirstMatchNone | server/src/infrastructure/database.rs:49-57 | The first-match scan finds nothing exactly when no listed record has an embedding strictly above the threshold. |
| Database.FirstMatchFound | server/src/infrastructure/database.rs:45-55 | A found record is at some position, qualifies, and no earlier record qualifies. |
| Database.FirstMatchOfFirstQualifying | server/src/infrastructure/database.rs:45-55 | The earliest qualifying record is the one returned: first match wins, not best match. |
| Database.MatchNoneInKeyOrder | server/src/infrastructure/database.rs:45-57 | The scan over the key-ordered records finds nothing exactly when no stored record qualifies. |
| Database.MatchSomeInKeyOrder | server/src/infrastructure/database.rs:45-55 | A match is stored under its own key, qualifies, and every record under a smaller key does not. |
| Database.DegenerateQueryMatchesNothing | server/src/core/utils.rs:1-15 | Under the cosine guards and a non-negative threshold, a zero query, or one whose length matches no stored embedding, matches nobody. |
| Database.PersonStore.AddEmbedding | server/src/infrastructure/database.rs:60-83 | For a stored id, that record's embeddings become the old ones plus the new one, under the same id. For a missing id, no record changes, though the table now exists. The key index is unchanged. |
| Database.Extended | server/src/infrastructure/database.rs:64-81 | The add-embedding transaction yields valid contents and keeps the key index; it appends for a present key and changes nothing for a missing one. |
| Database.AddEmbeddingKeepsKeys | server/src/infrastructure/database.rs:68-79 | Adding an embedding never adds or removes a key and leaves every other record as it was. |
| Database.InsertedKeepsNonEmpty | server/src/infrastructure/database.rs:19-31 | Saving a person with embeddings keeps every record non-empty. |
| Database.ExtendedKeepsNonEmpty | server/src/infrastructure/database.rs:75-79 | Appending an embedding keeps every record non-empty. |
| Database.LoadAllPeople | server/src/infrastructure/database.rs:86-102 | The result is empty, not an error, when the table does not exist. Otherwise it has one element per stored key, each the record under its own key, strictly in key order, with every stored record present. |
| Database.RecordsInKeyOrder | server/src/infrastructure/database.rs:95-101 | The key-ordered record list has the table's size, lists each stored record, and its ids' keys ascend strictly. |
| Processor.IsImage | server/src/services/processor.rs:97-102 | `is_image`: the extension of the path's file name, the text after its last dot that is not the name's first character, is one of `jpg`, `jpeg`, `png`, `webp`, compared case-sensitively. A name with no such dot, or `..`, has no extension and is rejected. |
| Processor.IsImageIffImageExtension | server/src/services/processor.rs:97-102 | A path is accepted exactly when it ends in a dot and one of `jpg`, `jpeg`, `png`, `webp` (case-sensitive), and the dot does not begin the file name. |
| Processor.ImageHasExtension | server/src/services/processor.rs:97-102 | Every accepted path ends in a dot and one of the four extensions. |
| Processor.ExtensionMakesImage | server/src/services/processor.rs:97-102 | Every path ending in a non-leading dot and one of the four extensions is accepted. |
| Processor.Sightings | server/src/services/processor.rs:31-46 | The faces a run visits: for each directory entry in listing order that passes `is_image`, its detector faces in detector order. Other entries contribute nothing. |
| Processor.Decide | server/src/services/processor.rs:57-83 | The policy for one embedded face, using the first match in the store as it stands. A match at confidence >= 0.90 appends to it, and below that is only reported. No match at >= 0.90 creates a person under the next drawn id, and below that reports the drawn id without storing it. |
| Processor.Apply | server/src/services/processor.rs:62-76 | Applying a decision's store write keeps the store valid. |
| Processor.TagFace | server/src/services/processor.rs:46-90 | Resolving one face keeps the store valid and draws at most one new id. |
| Processor.RunSightings | server/src/services/processor.rs:31-92 | A run over faces keeps the store valid and draws at most one id per face. |
| Processor.RunSightingsAppend | server/src/services/processor.rs:31-92 | Running two stretches of faces in turn is running them together: each face sees the store the earlier faces left. |
| Processor.SightingsStep | server/src/services/processor.rs:31-46 | One more directory entry adds its faces, in detector order, exactly when it passes the image filter. |
| Processor.Process | server/src/services/processor.rs:10-95 | The whole run: every face of every image entry resolved in order, starting from the store as it was opened, with no results and no ids drawn yet. |
| Processor.ProcessImagesAndTag | server/src/services/processor.rs:10-95 | The nested loops leave the store and return the results exactly as the whole-run specification `Process` prescribes. |
| Processor.ResolveEntry | server/src/services/processor.rs:31-45 | A non-image entry changes nothing; an image's faces are resolved in order. |
| Processor.ResolveImage | server/src/services/processor.rs:46-91 | The inner loop resolves the image's faces in detector order, as the specification runs them. |
| Processor.ResolveFace | server/src/services/processor.rs:46-90 | One face leaves the store, the results and the draws exactly as `TagFace` says. |
| Processor.Commit | server/src/services/processor.rs:62-76 | A confident face appends to the matched person or saves a new one. |
| ProcessorProperties.CreateIffConfidentStranger | server/src/services/processor.rs:67-77 | A face is decided as a new person exactly when its confidence is at least 0.90 and it matches no stored record. These are the decisions `Created` counts in the whole-run size accounting. |
| ProcessorProperties.ConfidentMatchAppends | server/src/services/processor.rs:57-65 | A confident match is stored and qualifies, with no smaller key qualifying. Its record gains exactly the query as its last embedding and nothing else changes. Its key is reported and no id is drawn. |
| ProcessorProperties.HesitantMatchReports | server/src/services/processor.rs:57-65 | Below 0.90, a match leaves the store unchanged, yet its key is reported. |
| ProcessorProperties.ConfidentStrangerIsSaved | server/src/services/processor.rs:67-82 | A confident face matching nobody adds exactly one key, holding a person whose only embedding is the query. The store grows by one, the new id is reported, and one id is drawn. |
| ProcessorProperties.HesitantStrangerIsNotSaved | server/src/services/processor.rs:67-82 | Below 0.90, a face matching nobody leaves the store unchanged and is reported under a drawn id that is not a key. |
| ProcessorProperties.MatchedKeys | server/src/services/processor.rs:57-66 | A matched face is decided under a stored id, draws nothing, and keeps the set of keys. |
| ProcessorProperties.UnmatchedKeys | server/src/services/processor.rs:67-82 | An unmatched face is decided under the next drawn id. A confident one adds exactly that key; a hesitant one adds none. |
| ProcessorProperties.DecisionKeys | server/src/services/processor.rs:57-90 | Per decision: the result appended and the id it carries, the draw, and the keys added (only by a create). |
| ProcessorProperties.TagFaceReports | server/src/services/processor.rs:85-90 | A face whose embedding succeeds adds one result reporting its path, confidence and box. A failed embedding adds none. |
| ProcessorProperties.OneResultPerEmbeddedFace | server/src/services/processor.rs:46-90 | A run keeps earlier results and adds one per face whose embedding succeeds, in order, copying path, confidence and box. Failures add nothing and do not stop the run. |
| ProcessorProperties.TagFaceKeepsFresh | server/src/services/processor.rs:67-77 | One face keeps the ids still to be drawn distinct and absent from the store. |
| ProcessorProperties.TagFaceKeepsAligned | server/src/services/processor.rs:85-90 | One face keeps each result paired with its decision's id. |
| ProcessorProperties.TagFaceKeepsStored | server/src/services/processor.rs:57-83 | One face keeps "a decision's id is a stored key exactly when it was not a hesitant stranger". |
| ProcessorProperties.TagFaceKeepsSpent | server/src/services/processor.rs:78-81 | One face keeps every hesitant stranger's id out of the ids still to be drawn. |
| ProcessorProperties.TagFaceCounts | server/src/services/processor.rs:57-83 | One face only appends a decision, and the store grows by one exactly when that decision creates a person. |
| ProcessorProperties.RunKeepsAccounts | server/src/services/processor.rs:46-91 | A stretch of faces preserves the four run invariants, only appends decisions, and grows the store by one key per person created. |
| ProcessorProperties.ProcessAccountsForEveryResult | server/tests/database_tests.rs:139-145 | Over a whole run with fresh draws, each result carries its decision's id. That id names a stored person exactly unless its face was a hesitant stranger. The final store size is the initial size plus the number of people created. |
| ProcessorProperties.RunKeepsNonEmpty | server/tests/database_tests.rs:155-157 | If every stored record has an embedding before a run, every record has one after it. |
| ProcessorProperties.TagFaceKeepsNonEmpty | server/src/services/processor.rs:62-76 | One face's store write keeps every record non-empty. |
| ProcessorProperties.HesitantFacesKeepStore | server/src/services/processor.rs:62-80 | Any number of faces below 0.90 leave the store exactly as it was. |
| ProcessorProperties.HesitantFaceKeepsStore | server/src/services/processor.rs:62-80 | One face below 0.90 leaves the store exactly as it was. |
| ProcessorProperties.SimilarFacesShareIdentity | server/src/services/processor.rs:57-77 | From an empty store, two confident faces more similar than the threshold become one person holding both embeddings, and both results report that person's key. |
| ProcessorProperties.FirstFaceIsSaved | server/src/services/processor.rs:67-77 | The first confident face on an empty store creates the only person, under the first drawn id. |
| ProcessorProperties.SecondFaceJoins | server/src/services/processor.rs:57-65 | A confident face like the only person's one embedding is appended to that person and reported under its key. |
| ProcessorProperties.DissimilarStep | server/src/services/processor.rs:67-77 | A confident face, unlike each earlier one, after those are stored one each under distinct draws, becomes one more person. |
| ProcessorProperties.DissimilarFacesStoredOneEach | server/src/services/processor.rs:67-77 | From an empty store, pairwise-dissimilar confident faces with distinct draws each become their own person, holding only that face's embedding. |
| ProcessorProperties.DissimilarFacesAreDistinctIdentities | server/src/services/processor.rs:67-77 | From an empty store, pairwise-dissimilar confident faces give as many people as faces, each with exactly one embedding. |

## Left out

- File and database I/O errors, including every `?` on redb and `fs` calls: the model treats every transaction as succeeding.
- redb internals (transactions, durability, concurrency): each write transaction is one atomic update of the store's value.
- serde_json encoding of records: taken to round-trip, so a record reads back as it was written.
- `PersonStore::new`: the file system is not modelled. The constructor takes the file's contents, or none for a new file.
- Cosine similarity in `f32` with `sqrt` (server/src/core/utils.rs): replaced by a similarity parameter. Only its length-mismatch and zero-magnitude guards are stated, as `CosineGuards`.
- `f32` values: the match threshold, the similarity and the embedding components are reals, so `f32` rounding and NaN are not modelled.
- Detection confidences are `f64` (detector.rs:29, :43) and are compared with the `f64` literal `0.90`. They are modelled as reals gated at exactly 0.90. This loses nothing: the nearest `f64` to 0.90 lies just above it, and no `f64` falls in between, so the real-valued gate decides exactly as the code does.
- Building the collaborators (processor.rs:18-21) is not modelled. `FaceDetector::new` downloads its model over the network, and `EmbeddingModel::new` loads an ONNX file; either failure aborts the run before any store access. The model takes both as ready-made `Pipeline` parameters.
- The face detector and `image::open` (server/src/infrastructure/detector.rs): one function from a path to the faces found, in order. Image decoding failures are not modelled.
- The embedder (server/src/infrastructure/embeddings.rs): a function from a crop to an optional embedding. Its internals are not part of this model.
- `fs::read_dir` order: the directory listing is an input sequence, in whatever order the platform yields.
- `Uuid::new_v4`: a sequence of ids handed out in call order.
  - The run requires as many ids as there are faces.
  - Randomness is not modelled.
  - That drawn ids are fresh is a hypothesis of these lemmas, not something the model derives:
    - that the next id is not a key yet: `ConfidentStrangerIsSaved` and `HesitantStrangerIsNotSaved`;
    - `FreshDraws` (the ids still to come are distinct and none is a key): `TagFaceKeepsFresh`, `TagFaceKeepsStored`, `TagFaceKeepsSpent`, `TagFaceCounts`, `RunKeepsAccounts` and `ProcessAccountsForEveryResult`;
    - that the draws are pairwise distinct: `DissimilarStep`, `DissimilarFacesStoredOneEach` and `DissimilarFacesAreDistinctIdentities`.
- `Processor.IsImage`: paths are strings split at `/`. Platform path parsing, trailing separators, `.` components and non-UTF-8 names are not modelled.
- Logging (`info!`, `warn!`), configuration (server/src/config.rs) and logger setup: no effect on the store or the results.
- Entry points and re-exports (server/src/bin, server/src/lib.rs): not part of the core.
