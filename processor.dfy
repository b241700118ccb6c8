/**
 * The identity-resolution pipeline: every face detected in every image of a
 * directory is embedded, matched against the store's current contents, and
 * resolved to an id under a fixed confidence gate, which also decides whether
 * the store changes.
 */
module Processor {

  import opened Optional
  import opened Uuids
  import opened Domain
  import opened Similarity
  import opened Database

  /** Only detections at least this confident may change the store. */
  const HIGH_CONFIDENCE: real := 0.90

  const ImageExtensions: set<string> := {"jpg", "jpeg", "png", "webp"}

  // ---------------------------------------------------------------------
  // Image files

  function LastIndexOf(s: string, c: char): (r: Option<nat>)
    ensures r.Some? ==> r.value < |s| && s[r.value] == c && forall j :: r.value < j < |s| ==> s[j] != c
    ensures r.None? ==> forall j :: 0 <= j < |s| ==> s[j] != c
  {
    if s == [] then None
    else if s[|s| - 1] == c then Some(|s| - 1)
    else LastIndexOf(s[..|s| - 1], c)
  }

  /** The last component of a path listed from a directory: everything after the last separator. */
  function FileName(path: string): string
  {
    match LastIndexOf(path, '/')
    case None => path
    case Some(i) => path[i + 1..]
  }

  /**
   * The extension of a file name: the text after its last dot; none when the
   * name has no dot, when its only dot leads the name, or when it is "..".
   */
  function Extension(name: string): Option<string>
  {
    if name == ".." then None
    else match LastIndexOf(name, '.')
      case None => None
      case Some(i) => if i == 0 then None else Some(name[i + 1..])
  }

  /** The directory filter: the extension is one of four, compared case-sensitively. */
  predicate IsImage(path: string)
  {
    match Extension(FileName(path))
    case None => false
    case Some(ext) => ext in ImageExtensions
  }

  /** The path ends in a dot and an image extension, and the dot does not begin the file name. */
  ghost predicate HasImageExtension(path: string)
  {
    exists k :: 0 < k < |path| && path[k] == '.' && path[k - 1] != '/' && path[k + 1..] in ImageExtensions
  }

  /** No image extension contains a dot or a separator. */
  lemma ExtensionsAreBare(e: string)
    requires e in ImageExtensions
    ensures |e| >= 3
    ensures forall j :: 0 <= j < |e| ==> e[j] != '.' && e[j] != '/'
  {
  }

  /** Where the file name of a path starts: just after its last separator, if any. */
  lemma FileNameStart(path: string) returns (start: nat)
    ensures start <= |path| && FileName(path) == path[start..]
    ensures start > 0 ==> path[start - 1] == '/'
    ensures forall m :: start <= m < |path| ==> path[m] != '/'
  {
    match LastIndexOf(path, '/')
    case None => start := 0;
    case Some(j) => start := j + 1;
  }

  /** An accepted path ends in a dot and an image extension, the dot not beginning the file name. */
  lemma ImageHasExtension(path: string)
    requires IsImage(path)
    ensures HasImageExtension(path)
  {
    var start := FileNameStart(path);
    var name := FileName(path);
    var i := LastIndexOf(name, '.').value;
    var k := start + i;
    assert path[k] == name[i];
    assert path[k - 1] == name[i - 1];
    assert path[k + 1..] == name[i + 1..];
  }

  /** The last occurrence of `c` is at `i` when `s[i]` is `c` and no later character is. */
  lemma {:induction false} LastIndexAt(s: string, c: char, i: nat)
    requires i < |s| && s[i] == c
    requires forall m :: i < m < |s| ==> s[m] != c
    ensures LastIndexOf(s, c) == Some(i)
    decreases |s|
  {
    if i < |s| - 1 {
      LastIndexAt(s[..|s| - 1], c, i);
    }
  }

  /** The file name begins before the dot of a trailing extension. */
  lemma NameStartsBeforeDot(path: string, k: nat, start: nat)
    requires 0 < k < |path| && path[k] == '.' && path[k - 1] != '/' && path[k + 1..] in ImageExtensions
    requires start <= |path| && (start > 0 ==> path[start - 1] == '/')
    ensures start < k
  {
    var e := path[k + 1..];
    ExtensionsAreBare(e);
  }

  /** A path that ends in a dot and an image extension, the dot not beginning the file name, is accepted. */
  lemma ExtensionMakesImage(path: string, k: nat)
    requires 0 < k < |path| && path[k] == '.' && path[k - 1] != '/' && path[k + 1..] in ImageExtensions
    ensures IsImage(path)
  {
    var start := FileNameStart(path);
    NameStartsBeforeDot(path, k, start);
    var name := FileName(path);
    var e := path[k + 1..];
    ExtensionsAreBare(e);
    var i := k - start;
    assert name[i] == '.';
    assert name[i + 1..] == e;
    forall m | i < m < |name| ensures name[m] != '.' {
      assert name[m] == e[m - i - 1];
    }
    LastIndexAt(name, '.', i);
  }

  /**
   * The filter accepts a path exactly when it ends in a dot and one of the
   * four extensions, compared case-sensitively, and that dot does not begin
   * the file name.
   */
  lemma IsImageIffImageExtension(path: string)
    ensures IsImage(path) <==> HasImageExtension(path)
  {
    if IsImage(path) {
      ImageHasExtension(path);
    }
    if HasImageExtension(path) {
      var k :| 0 < k < |path| && path[k] == '.' && path[k - 1] != '/' && path[k + 1..] in ImageExtensions;
      ExtensionMakesImage(path, k);
    }
  }

  // ---------------------------------------------------------------------
  // Collaborators

  /** A cropped face image, as an opaque handle the embedder understands. */
  type Crop = nat

  /** One face the detector reports: its crop, its rectangle and its confidence. */
  datatype Face = Face(crop: Crop, bbox: BoundingBox, confidence: real)

  /** Opens the image at a path and reports its faces in order. */
  type Detector = string -> seq<Face>

  /** Computes the embedding of a crop, or fails. */
  type Embedder = Crop -> Option<Embedding>

  /**
   * What a run is given besides the store: the match threshold, the
   * similarity measure, the two collaborators, and the ids `Uuid::new_v4`
   * will hand out, in the order it is called.
   */
  datatype Pipeline = Pipeline(threshold: real, sim: Similarity, detect: Detector, embed: Embedder, draws: seq<Uuid>)

  // ---------------------------------------------------------------------
  // The run as a specification

  /** A face together with the image it was found in. */
  datatype Sighting = Sighting(path: string, face: Face)

  function Tagged(path: string, faces: seq<Face>): seq<Sighting>
  {
    seq(|faces|, k requires 0 <= k < |faces| => Sighting(path, faces[k]))
  }

  /** Every face of every image entry, in directory order and then detector order. */
  ghost function Sightings(entries: seq<string>, detect: Detector): seq<Sighting>
  {
    if entries == [] then []
    else
      var path := entries[|entries| - 1];
      Sightings(entries[..|entries| - 1], detect) + (if IsImage(path) then Tagged(path, detect(path)) else [])
  }

  /**
   * How one embedded face was resolved: a high-confidence match gains the
   * embedding, a low-confidence match is only reported, a high-confidence
   * non-match becomes a new person, and a low-confidence non-match gets an id
   * that is never stored.
   */
  datatype Decision = Append(id: Uuid) | Report(id: Uuid) | Create(id: Uuid) | Ephemeral(id: Uuid)

  /** The state of a run: the store, the results so far, how each was decided, and how many ids were drawn. */
  datatype Run = Run(db: Db, results: seq<DetectedFace>, decisions: seq<Decision>, drawn: nat)

  function Start(db: Db): Run
  {
    Run(db, [], [], 0)
  }

  ghost function Decide(db: Db, query: Embedding, confidence: real, pl: Pipeline, drawn: nat): Decision
    requires DbValid(db) && drawn < |pl.draws|
  {
    match FirstMatch(Records(db), query, pl.threshold, pl.sim)
    case Some(p) => if confidence >= HIGH_CONFIDENCE then Append(p.id) else Report(p.id)
    case None => if confidence >= HIGH_CONFIDENCE then Create(pl.draws[drawn]) else Ephemeral(pl.draws[drawn])
  }

  ghost function Apply(db: Db, d: Decision, query: Embedding): (r: Db)
    requires DbValid(db)
    ensures DbValid(r)
  {
    match d
    case Append(id) => Extended(db, id, query)
    case Report(_) => db
    case Create(id) => Inserted(db, Person(id, [query]))
    case Ephemeral(_) => db
  }

  /** One face: embed it, skip it if that fails, else decide, apply and report. */
  ghost function TagFace(r: Run, s: Sighting, pl: Pipeline): (r': Run)
    requires DbValid(r.db) && r.drawn < |pl.draws|
    ensures DbValid(r'.db) && r.drawn <= r'.drawn <= r.drawn + 1
  {
    match pl.embed(s.face.crop)
    case None => r
    case Some(q) =>
      var d := Decide(r.db, q, s.face.confidence, pl, r.drawn);
      Run(Apply(r.db, d, q),
          r.results + [DetectedFace(s.path, UuidToString(d.id), s.face.confidence, s.face.bbox)],
          r.decisions + [d],
          if d.Create? || d.Ephemeral? then r.drawn + 1 else r.drawn)
  }

  /** The faces in order, each seeing the store as the faces before it left it. */
  ghost function RunSightings(r: Run, ss: seq<Sighting>, pl: Pipeline): (r': Run)
    requires DbValid(r.db) && r.drawn + |ss| <= |pl.draws|
    ensures DbValid(r'.db) && r.drawn <= r'.drawn <= r.drawn + |ss|
    decreases |ss|
  {
    if ss == [] then r else TagFace(RunSightings(r, ss[..|ss| - 1], pl), ss[|ss| - 1], pl)
  }

  /** A whole run over a directory listing, from the store's state at the start. */
  ghost function Process(db: Db, entries: seq<string>, pl: Pipeline): Run
    requires DbValid(db) && |Sightings(entries, pl.detect)| <= |pl.draws|
  {
    RunSightings(Start(db), Sightings(entries, pl.detect), pl)
  }

  lemma {:induction false} SightingsOfPrefix(entries: seq<string>, n: nat, detect: Detector)
    requires n <= |entries|
    ensures |Sightings(entries[..n], detect)| <= |Sightings(entries, detect)|
    decreases |entries|
  {
    if n < |entries| {
      var front := entries[..|entries| - 1];
      assert front[..n] == entries[..n];
      SightingsOfPrefix(front, n, detect);
    } else {
      assert entries[..n] == entries;
    }
  }

  lemma SightingsStep(entries: seq<string>, i: nat, detect: Detector)
    requires i < |entries|
    ensures Sightings(entries[..i + 1], detect)
         == Sightings(entries[..i], detect) + (if IsImage(entries[i]) then Tagged(entries[i], detect(entries[i])) else [])
  {
    assert entries[..i + 1][..i] == entries[..i];
  }

  /** Running two stretches of faces one after the other is running them together. */
  lemma {:induction false} RunSightingsAppend(r: Run, a: seq<Sighting>, b: seq<Sighting>, pl: Pipeline)
    requires DbValid(r.db) && r.drawn + |a| + |b| <= |pl.draws|
    ensures RunSightings(r, a + b, pl) == RunSightings(RunSightings(r, a, pl), b, pl)
    decreases |b|
  {
    if b == [] {
      assert a + b == a;
    } else {
      var b' := b[..|b| - 1];
      assert (a + b)[..|a + b| - 1] == a + b';
      assert (a + b)[|a + b| - 1] == b[|b| - 1];
      RunSightingsAppend(r, a, b', pl);
    }
  }

  /** The run after the first `n` directory entries. */
  ghost function Prefix(db: Db, entries: seq<string>, n: nat, pl: Pipeline): Run
    requires DbValid(db) && n <= |entries| && |Sightings(entries, pl.detect)| <= |pl.draws|
  {
    SightingsOfPrefix(entries, n, pl.detect);
    RunSightings(Start(db), Sightings(entries[..n], pl.detect), pl)
  }

  /** The faces an entry contributes: none unless it is an image. */
  ghost function EntryFaces(path: string, detect: Detector): seq<Sighting>
  {
    if IsImage(path) then Tagged(path, detect(path)) else []
  }

  /** One more entry is that entry's faces run on top of the entries before it. */
  lemma PrefixStep(db: Db, entries: seq<string>, n: nat, pl: Pipeline)
    requires DbValid(db) && n < |entries| && |Sightings(entries, pl.detect)| <= |pl.draws|
    ensures Prefix(db, entries, n, pl).drawn + |EntryFaces(entries[n], pl.detect)| <= |pl.draws|
    ensures Prefix(db, entries, n + 1, pl) == RunSightings(Prefix(db, entries, n, pl), EntryFaces(entries[n], pl.detect), pl)
  {
    SightingsStep(entries, n, pl.detect);
    SightingsOfPrefix(entries, n + 1, pl.detect);
    RunSightingsAppend(Start(db), Sightings(entries[..n], pl.detect), EntryFaces(entries[n], pl.detect), pl);
  }

  /** One more face of an image is one more `TagFace` step. */
  lemma ImageStep(run: Run, path: string, faces: seq<Face>, j: nat, pl: Pipeline)
    requires DbValid(run.db) && j < |faces| && run.drawn + |faces| <= |pl.draws|
    ensures RunSightings(run, Tagged(path, faces[..j]), pl).drawn < |pl.draws|
    ensures RunSightings(run, Tagged(path, faces[..j + 1]), pl)
         == TagFace(RunSightings(run, Tagged(path, faces[..j]), pl), Sighting(path, faces[j]), pl)
  {
    var before := Tagged(path, faces[..j]);
    var after := Tagged(path, faces[..j + 1]);
    assert after[..|after| - 1] == before;
    assert after[|after| - 1] == Sighting(path, faces[j]);
  }

  /** A store and the program's variables agree with a run of the specification. */
  ghost predicate Mirrors(store: PersonStore, results: seq<DetectedFace>, drawn: nat, run: Run)
    reads store
  {
    store.Valid() && run.db == store.db && run.results == results && run.drawn == drawn
  }

  // ---------------------------------------------------------------------
  // The run as the program performs it

  /**
   * `process_images_and_tag`: for every image entry and every face in it,
   * resolve the face against the store as it stands and report it.
   */
  method ProcessImagesAndTag(store: PersonStore, entries: seq<string>, pl: Pipeline) returns (results: seq<DetectedFace>)
    requires store.Valid()
    requires |Sightings(entries, pl.detect)| <= |pl.draws|
    modifies store
    ensures store.Valid()
    ensures store.db == Process(old(store.db), entries, pl).db
    ensures results == Process(old(store.db), entries, pl).results
  {
    ghost var db0 := store.db;
    results := [];
    var drawn := 0;
    ghost var run := Start(db0);
    assert entries[..0] == [];
    var i := 0;
    while i < |entries|
      invariant 0 <= i <= |entries|
      invariant Mirrors(store, results, drawn, run)
      invariant run == Prefix(db0, entries, i, pl)
    {
      PrefixStep(db0, entries, i, pl);
      results, drawn, run := ResolveEntry(store, entries[i], pl, results, drawn, run);
      i := i + 1;
    }
    assert entries[..i] == entries;
  }

  /** One directory entry: skipped unless it is an image, else its faces in order. */
  method ResolveEntry(store: PersonStore, path: string, pl: Pipeline,
                      results: seq<DetectedFace>, drawn: nat, ghost run: Run)
    returns (results': seq<DetectedFace>, drawn': nat, ghost run': Run)
    requires Mirrors(store, results, drawn, run)
    requires drawn + |EntryFaces(path, pl.detect)| <= |pl.draws|
    modifies store
    ensures Mirrors(store, results', drawn', run')
    ensures run' == RunSightings(run, EntryFaces(path, pl.detect), pl)
  {
    if !IsImage(path) {
      return results, drawn, run;
    }
    var faces := pl.detect(path);
    results', drawn', run' := ResolveImage(store, path, faces, pl, results, drawn, run);
  }

  /** The faces of one image, in detector order. */
  method ResolveImage(store: PersonStore, path: string, faces: seq<Face>, pl: Pipeline,
                      results: seq<DetectedFace>, drawn: nat, ghost run: Run)
    returns (results': seq<DetectedFace>, drawn': nat, ghost run': Run)
    requires Mirrors(store, results, drawn, run)
    requires drawn + |faces| <= |pl.draws|
    modifies store
    ensures Mirrors(store, results', drawn', run')
    ensures run' == RunSightings(run, Tagged(path, faces), pl)
  {
    results', drawn', run' := results, drawn, run;
    var j := 0;
    while j < |faces|
      invariant 0 <= j <= |faces|
      invariant Mirrors(store, results', drawn', run')
      invariant run' == RunSightings(run, Tagged(path, faces[..j]), pl)
    {
      ImageStep(run, path, faces, j, pl);
      results', drawn', run' := ResolveFace(store, path, faces[j], pl, results', drawn', run');
      j := j + 1;
    }
    assert faces[..j] == faces;
  }

  /**
   * One face: embed it and skip it if that fails; otherwise match it against
   * the store as it stands, apply the confidence gate, and report it.
   */
  method ResolveFace(store: PersonStore, path: string, face: Face, pl: Pipeline,
                     results: seq<DetectedFace>, drawn: nat, ghost run: Run)
    returns (results': seq<DetectedFace>, drawn': nat, ghost run': Run)
    requires Mirrors(store, results, drawn, run)
    requires drawn < |pl.draws|
    modifies store
    ensures Mirrors(store, results', drawn', run')
    ensures run' == TagFace(run, Sighting(path, face), pl)
  {
    results', drawn', run' := results, drawn, run;
    var embedding := pl.embed(face.crop);
    if embedding.None? {
      return;
    }
    var query := embedding.value;
    var found := store.FindMatch(query, pl.threshold, pl.sim);
    ghost var d := Decide(run.db, query, face.confidence, pl, drawn);
    var id: Uuid;
    if found.Some? {
      id := found.value.id;
    } else {
      id := pl.draws[drawn];
      drawn' := drawn + 1;
    }
    assert d.id == id;
    if face.confidence >= HIGH_CONFIDENCE {
      Commit(store, found.Some?, id, query);
    }
    assert store.db == Apply(run.db, d, query);
    results' := results + [DetectedFace(path, UuidToString(id), face.confidence, face.bbox)];
    run' := Run(store.db, results', run.decisions + [d], drawn');
  }

  /** The store write of a high-confidence face: extend the matched person, or save a new one. */
  method Commit(store: PersonStore, matched: bool, id: Uuid, query: Embedding)
    requires store.Valid()
    modifies store
    ensures store.Valid()
    ensures store.db == Apply(old(store.db), if matched then Append(id) else Create(id), query)
  {
    if matched {
      store.AddEmbedding(id, query);
    } else {
      store.Save(Person(id, [query]));
    }
  }
}
